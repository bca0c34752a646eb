/// The loaded gems that contribute search roots, and the pairwise comparator
/// (`dependent?` / `dependent_sort`) the root collector sorts them with.
module Gems {
  import opened Sorting
  import opened Paths

  datatype DependencyType = Runtime | Development

  /** One entry of a gem's `dependencies`. */
  datatype Dependency = Dependency(name: string, kind: DependencyType)

  /** The part of a loaded Gem::Specification the resolver reads. The
      gem's directory becomes a search root, so it is a plain path. */
  datatype GemSpec = GemSpec(name: string, fullGemPath: Path, dependencies: seq<Dependency>)

  /** `deps.any? { |dep| dep.type == :runtime && dep.name == name }` */
  function HasRuntimeDependency(deps: seq<Dependency>, name: string): (r: bool)
    ensures r <==> exists i :: 0 <= i < |deps| && deps[i].kind == Runtime && deps[i].name == name
  {
    if deps == [] then false
    else if deps[0].kind == Runtime && deps[0].name == name then true
    else
      var r := HasRuntimeDependency(deps[1..], name);
      assert forall i :: 1 <= i < |deps| ==> deps[i] == deps[1..][i - 1];
      r
  }

  /** `dependent?(a, b)`: b declares a runtime dependency on a. */
  predicate Dependent(a: GemSpec, b: GemSpec) {
    HasRuntimeDependency(b.dependencies, a.name)
  }

  /** `dependent_sort(a, b)`: -1 puts a before b. */
  function DependentSort(a: GemSpec, b: GemSpec): int {
    if Dependent(a, b) then -1
    else if Dependent(b, a) then 1
    else 0
  }

  /** The comparator's three cases, in terms of the declared dependencies. */
  lemma DependentSortCases(a: GemSpec, b: GemSpec)
    ensures DependentSort(a, b) == -1 <==>
              exists i :: 0 <= i < |b.dependencies| && b.dependencies[i] == Dependency(a.name, Runtime)
    ensures DependentSort(a, b) == 1 <==>
              (forall i :: 0 <= i < |b.dependencies| ==> b.dependencies[i] != Dependency(a.name, Runtime))
              && exists i :: 0 <= i < |a.dependencies| && a.dependencies[i] == Dependency(b.name, Runtime)
    ensures DependentSort(a, b) == 0 <==>
              (forall i :: 0 <= i < |b.dependencies| ==> b.dependencies[i] != Dependency(a.name, Runtime))
              && (forall i :: 0 <= i < |a.dependencies| ==> a.dependencies[i] != Dependency(b.name, Runtime))
  {
  }

  /** Without a mutual dependency, swapping the operands negates the answer. */
  lemma DependentSortAntisymmetric(a: GemSpec, b: GemSpec)
    requires !(Dependent(a, b) && Dependent(b, a))
    ensures DependentSort(a, b) == -DependentSort(b, a)
  {
  }

  /** Two gems that depend on each other both claim to come first: the
      comparator is not a consistent order (no cycle detection). */
  lemma DependentSortMutual(a: GemSpec, b: GemSpec)
    requires Dependent(a, b) && Dependent(b, a)
    ensures DependentSort(a, b) == -1 && DependentSort(b, a) == -1
  {
  }

  /** `volt` starts at position i of s, where Ruby's `^` holds: at the
      start of the string or just after a newline. */
  predicate VoltAt(s: string, i: int) {
    0 <= i <= |s| - 4 && (i == 0 || s[i - 1] == '\n') && s[i..i + 4] == "volt"
  }

  /** `gem.name =~ /^volt/` */
  predicate IsVoltGem(g: GemSpec) {
    exists i :: 0 <= i <= |g.name| && VoltAt(g.name, i)
  }

  /** On a one-line name the match is a prefix test. */
  lemma IsVoltGemPrefix(g: GemSpec)
    requires '\n' !in g.name
    ensures IsVoltGem(g) <==> |g.name| >= 4 && g.name[..4] == "volt"
  {
    if IsVoltGem(g) {
      var i :| 0 <= i <= |g.name| && VoltAt(g.name, i);
    } else if |g.name| >= 4 && g.name[..4] == "volt" {
      assert VoltAt(g.name, 0);
    }
  }

  /** `select { |gem| gem.name =~ /^volt/ }` */
  function VoltGems(gems: seq<GemSpec>): (r: seq<GemSpec>)
    ensures forall g :: g in r <==> g in gems && IsVoltGem(g)
  {
    if gems == [] then []
    else (if IsVoltGem(gems[0]) then [gems[0]] else []) + VoltGems(gems[1..])
  }

  /** `.sort { |a, b| dependent_sort(a, b) }` over the volt gems. */
  function SortedVoltGems(gems: seq<GemSpec>): seq<GemSpec> {
    SortBy(VoltGems(gems), DependentSort)
  }

  /** `.map { |gem| "#{gem.full_gem_path}/app" }` */
  function GemAppFolders(gems: seq<GemSpec>): (r: seq<string>)
    ensures |r| == |gems|
    ensures forall i :: 0 <= i < |gems| ==> r[i] == Join(gems[i].fullGemPath, "app")
  {
    if gems == [] then [] else [Join(gems[0].fullGemPath, "app")] + GemAppFolders(gems[1..])
  }

  /** The sorted gems are a permutation of the loaded gems named `volt...`. */
  lemma SortedVoltGemsPermutation(gems: seq<GemSpec>)
    ensures multiset(SortedVoltGems(gems)) == multiset(VoltGems(gems))
    ensures forall g :: g in SortedVoltGems(gems) <==> g in gems && IsVoltGem(g)
  {
    var s := SortedVoltGems(gems);
    forall g ensures g in s <==> g in VoltGems(gems) {
      assert g in s <==> g in multiset(s);
    }
  }

  /** The gem roots are exactly the `app` folders of the volt gems. */
  lemma GemRootMember(gems: seq<GemSpec>, p: string)
    ensures p in GemAppFolders(SortedVoltGems(gems)) <==>
              exists g :: g in gems && IsVoltGem(g) && p == Join(g.fullGemPath, "app")
  {
    var s := SortedVoltGems(gems);
    SortedVoltGemsPermutation(gems);
    var r := GemAppFolders(s);
    if p in r {
      var i :| 0 <= i < |r| && r[i] == p;
      assert s[i] in s;
    }
    if exists g :: g in gems && IsVoltGem(g) && p == Join(g.fullGemPath, "app") {
      var g :| g in gems && IsVoltGem(g) && p == Join(g.fullGemPath, "app");
      var i :| 0 <= i < |s| && s[i] == g;
      assert r[i] == p;
    }
  }

  /** Two volt gems where the second depends on the first (and not the other
      way round) are ordered dependency first, whichever order they were
      loaded in. */
  lemma DependencyOrderedFirst(a: GemSpec, b: GemSpec)
    requires IsVoltGem(a) && IsVoltGem(b)
    requires Dependent(a, b) && !Dependent(b, a)
    ensures SortedVoltGems([a, b]) == [a, b]
    ensures SortedVoltGems([b, a]) == [a, b]
  {
    assert [a, b][1..] == [b] && [b, a][1..] == [a] && [a][1..] == [] && [b][1..] == [];
    assert VoltGems([b]) == [b] && VoltGems([a]) == [a];
    assert VoltGems([a, b]) == [a, b];
    assert VoltGems([b, a]) == [b, a];
    assert SortBy([b], DependentSort) == [b] && SortBy([a], DependentSort) == [a];
    assert DependentSort(a, b) == -1 && DependentSort(b, a) == 1;
    assert Insert(b, [a], DependentSort) == [a] + Insert(b, [], DependentSort);
  }

  /** Two volt gems with no dependency between them keep their load order. */
  lemma UnrelatedKeepOrder(a: GemSpec, b: GemSpec)
    requires IsVoltGem(a) && IsVoltGem(b)
    requires !Dependent(a, b) && !Dependent(b, a)
    ensures SortedVoltGems([a, b]) == [a, b]
  {
    assert [a, b][1..] == [b] && [b][1..] == [];
    assert VoltGems([b]) == [b];
    assert VoltGems([a, b]) == [a, b];
    assert SortBy([b], DependentSort) == [b];
    assert DependentSort(a, b) == 0;
  }
}
