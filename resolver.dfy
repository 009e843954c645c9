/**
 * Dependency resolution of cmd/construct.go.
 *
 * constructOutputPackageList seeds the output list with the git-hosted root
 * packages and resolves their Depends, Imports and Suggests entries;
 * resolveDependenciesRecursively resolves one name depth-first: it scans the
 * repositories in priority order and, within each, the PACKAGES index in order,
 * takes the first entry of that name whose version satisfies the constraint,
 * appends it to the shared output list and recurses into its Depends and Imports.
 *
 * The functions Resolve/ResolveDeps/Construct state what the walk computes; the
 * class OutputList holds the shared list that the Go code updates through a
 * pointer, and its method is proved to compute exactly Resolve.
 */
module Resolver {
  import opened Structs
  import Utils
  import Versions

  datatype OutputPackage = OutputPackage(package: string, version: string, repository: string)

  /** The packages that ship with R itself and are never resolved. */
  const BasePackages: seq<string> := [
    "base", "compiler", "datasets", "graphics", "grDevices", "grid",
    "methods", "parallel", "splines", "stats", "stats4", "tcltk", "tools",
    "translations", "utils", "R"]

  /** Dependency types followed from the root packages. */
  const RootTypes: set<string> := {"Depends", "Imports", "Suggests"}

  /** Dependency types followed from resolved packages. */
  const TransitiveTypes: set<string> := {"Depends", "Imports"}

  function CheckIfBasePackage(name: string): (isBase: bool)
    ensures isBase <==> name in BasePackages
  {
    Utils.StringInSlice(name, BasePackages)
  }

  function Names(list: seq<OutputPackage>): set<string> {
    set o | o in list :: o.package
  }

  function CheckIfPackageOnOutputList(name: string, outputList: seq<OutputPackage>): (listed: bool)
    ensures listed <==> name in Names(outputList)
  {
    if outputList == [] then false
    else if outputList[0].package == name then true
    else
      assert Names(outputList) == {outputList[0].package} + Names(outputList[1..]) by {
        assert outputList == [outputList[0]] + outputList[1..];
      }
      CheckIfPackageOnOutputList(name, outputList[1..])
  }

  /** packagesFiles[r].Packages, which is empty for a repository without an index. */
  function Listing(files: map<string, PackagesFile>, r: string): seq<PackageDescription> {
    if r in files then files[r].packages else []
  }

  /** The names occurring in the indexes of the listed repositories. */
  ghost function IndexNames(repos: seq<string>, files: map<string, PackagesFile>): set<string> {
    set r, p | r in repos && p in Listing(files, r) :: p.package
  }

  /**
   * An entry of the name whose version cannot be compared with the constraint:
   * checkIfVersionSufficient finds no version component on either side and panics
   * indexing the empty component list.
   */
  predicate PanicsOn(p: PackageDescription, name: string, op: string, value: string) {
    p.package == name && !Versions.Comparable(p.version, op, value)
  }

  /** An index entry that the resolver accepts for the name under the constraint. */
  predicate Matches(p: PackageDescription, name: string, op: string, value: string) {
    p.package == name && Versions.Comparable(p.version, op, value) && Versions.VersionSufficient(p.version, op, value)
  }

  /** How a scan ends: at an accepted position, without one, or in a panic. */
  datatype Search = Found(index: nat) | NotFound | Panic

  /** A position found in a suffix starting at `j`, as a position of the whole list. */
  function Offset(s: Search, j: nat): Search {
    if s.Found? then Found(s.index + j) else s
  }

  /**
   * The scan of one index: the first entry of the name that is accepted, unless an
   * entry of the name whose version cannot be compared comes first.
   */
  function FirstSufficient(entries: seq<PackageDescription>, name: string, op: string, value: string): (s: Search)
    ensures s.Found? ==> s.index < |entries| && Matches(entries[s.index], name, op, value)
    ensures forall j :: 0 <= j < |entries| && (s.NotFound? || (s.Found? && j < s.index)) ==>
      !Matches(entries[j], name, op, value) && !PanicsOn(entries[j], name, op, value)
  {
    if entries == [] then NotFound
    else if PanicsOn(entries[0], name, op, value) then Panic
    else if Matches(entries[0], name, op, value) then Found(0)
    else Offset(FirstSufficient(entries[1..], name, op, value), 1)
  }

  /**
   * The scan panics exactly when an entry of the name with an incomparable version
   * comes before every accepted entry.
   */
  lemma {:induction false} FirstSufficientPanic(entries: seq<PackageDescription>, name: string, op: string, value: string)
    ensures FirstSufficient(entries, name, op, value).Panic? <==>
      exists j :: 0 <= j < |entries| && PanicsOn(entries[j], name, op, value)
                  && forall k :: 0 <= k < j ==> !Matches(entries[k], name, op, value)
  {
    if FirstSufficient(entries, name, op, value).Panic? {
      var j := FirstPanic(entries, name, op, value);
    } else {
      NoPanicBlocked(entries, name, op, value);
    }
  }

  /** The position where a panicking scan stops: an incomparable entry with no accepted one before it. */
  lemma {:induction false} FirstPanic(entries: seq<PackageDescription>, name: string, op: string, value: string)
    returns (j: nat)
    requires FirstSufficient(entries, name, op, value).Panic?
    ensures j < |entries| && PanicsOn(entries[j], name, op, value)
    ensures forall k :: 0 <= k < j ==> !Matches(entries[k], name, op, value)
  {
    if PanicsOn(entries[0], name, op, value) {
      j := 0;
    } else {
      var t := FirstPanic(entries[1..], name, op, value);
      j := t + 1;
      forall k | 0 < k < j ensures entries[k] == entries[1..][k - 1] { }
    }
  }

  /** A scan that does not panic meets an accepted entry before any incomparable one. */
  lemma {:induction false} NoPanicBlocked(entries: seq<PackageDescription>, name: string, op: string, value: string)
    requires !FirstSufficient(entries, name, op, value).Panic?
    ensures forall j :: 0 <= j < |entries| && PanicsOn(entries[j], name, op, value) ==>
      exists k :: 0 <= k < j && Matches(entries[k], name, op, value)
  {
    if entries != [] && !Matches(entries[0], name, op, value) {
      var tail := entries[1..];
      NoPanicBlocked(tail, name, op, value);
      forall j | 0 < j < |entries| && PanicsOn(entries[j], name, op, value)
        ensures exists k :: 0 <= k < j && Matches(entries[k], name, op, value)
      {
        assert PanicsOn(tail[j - 1], name, op, value);
        var k :| 0 <= k < j - 1 && Matches(tail[k], name, op, value);
        assert entries[k + 1] == tail[k];
      }
    }
  }

  /** The scan of repository r's index. */
  function ScanRepository(files: map<string, PackagesFile>, r: string, name: string, op: string, value: string): Search {
    FirstSufficient(Listing(files, r), name, op, value)
  }

  /**
   * The repository loop: the position of the first repository whose scan accepts an
   * entry, or the panic of the first one whose scan panics.
   */
  function FirstRepository(repos: seq<string>, files: map<string, PackagesFile>, name: string, op: string, value: string): (k: Search)
    ensures k.Found? ==> k.index < |repos| && ScanRepository(files, repos[k.index], name, op, value).Found?
  {
    if repos == [] then NotFound
    else
      var s := ScanRepository(files, repos[0], name, op, value);
      if s.Found? then Found(0)
      else if s.Panic? then Panic
      else Offset(FirstRepository(repos[1..], files, name, op, value), 1)
  }

  /**
   * Repositories are tried in order: the first one whose scan does not come up empty
   * decides, with the entry it accepts or with its panic.
   */
  lemma {:induction false} FirstRepositoryAt(repos: seq<string>, files: map<string, PackagesFile>, name: string, op: string, value: string, i: nat)
    requires i < |repos|
    requires forall k :: 0 <= k < i ==> ScanRepository(files, repos[k], name, op, value).NotFound?
    requires !ScanRepository(files, repos[i], name, op, value).NotFound?
    ensures FirstRepository(repos, files, name, op, value)
      == if ScanRepository(files, repos[i], name, op, value).Found? then Found(i) else Panic
  {
    if i > 0 {
      assert ScanRepository(files, repos[0], name, op, value).NotFound?;
      assert forall k :: 0 <= k < i - 1 ==> repos[1..][k] == repos[k + 1];
      FirstRepositoryAt(repos[1..], files, name, op, value, i - 1);
    }
  }

  /** With no repository holding an accepted entry or a panicking one, none is taken. */
  lemma {:induction false} FirstRepositoryNone(repos: seq<string>, files: map<string, PackagesFile>, name: string, op: string, value: string)
    requires forall k :: 0 <= k < |repos| ==> ScanRepository(files, repos[k], name, op, value).NotFound?
    ensures FirstRepository(repos, files, name, op, value) == NotFound
  {
    if repos != [] {
      assert ScanRepository(files, repos[0], name, op, value).NotFound?;
      assert forall k :: 0 <= k < |repos| - 1 ==> repos[1..][k] == repos[k + 1];
      FirstRepositoryNone(repos[1..], files, name, op, value);
    }
  }

  /** The index entry the resolver takes for the name: first repository, then first entry. */
  function ChosenEntry(repos: seq<string>, files: map<string, PackagesFile>, name: string, op: string, value: string): PackageDescription
    requires FirstRepository(repos, files, name, op, value).Found?
  {
    var r := repos[FirstRepository(repos, files, name, op, value).index];
    Listing(files, r)[ScanRepository(files, r, name, op, value).index]
  }

  /** The output entry appended for the name: the chosen entry with its repository's URL. */
  function Chosen(repos: seq<string>, files: map<string, PackagesFile>, name: string, op: string, value: string): OutputPackage
    requires FirstRepository(repos, files, name, op, value).Found?
  {
    var p := ChosenEntry(repos, files, name, op, value);
    OutputPackage(p.package, p.version, repos[FirstRepository(repos, files, name, op, value).index])
  }

  /** No name occurs twice on the list. */
  predicate Distinct(list: seq<OutputPackage>) {
    forall i, j :: 0 <= i < j < |list| ==> list[i].package != list[j].package
  }

  /** An output entry taken from an index: its repository's URL and an entry of that index. */
  predicate FromIndex(o: OutputPackage, repos: seq<string>, files: map<string, PackagesFile>) {
    o.repository in repos && exists p :: p in Listing(files, o.repository) && p.package == o.package && p.version == o.version
  }

  /** The walk only appends, and only names found in the indexes. */
  ghost predicate Grows(list: seq<OutputPackage>, result: seq<OutputPackage>, repos: seq<string>, files: map<string, PackagesFile>) {
    list <= result && Names(result) - Names(list) <= IndexNames(repos, files)
  }

  lemma GrowsTransitive(a: seq<OutputPackage>, b: seq<OutputPackage>, c: seq<OutputPackage>, repos: seq<string>, files: map<string, PackagesFile>)
    requires Grows(a, b, repos, files) && Grows(b, c, repos, files)
    ensures Grows(a, c, repos, files)
  {
    NamesOfPrefix(a, b);
  }

  /**
   * What the walk ends in: the output list, or Aborted when checkIfVersionSufficient
   * panicked, which ends the program.
   */
  datatype Walk = Done(list: seq<OutputPackage>) | Aborted

  lemma GrowsThen(a: seq<OutputPackage>, b: seq<OutputPackage>, w: Walk, repos: seq<string>, files: map<string, PackagesFile>)
    requires Grows(a, b, repos, files) && (w.Done? ==> Grows(b, w.list, repos, files))
    ensures w.Done? ==> Grows(a, w.list, repos, files)
  {
    if w.Done? {
      GrowsTransitive(a, b, w.list, repos, files);
    }
  }

  /**
   * What the entries appended from `list` to `result` satisfy: none is a base
   * package, each comes from an index, and no name is appended twice.
   */
  ghost predicate Sound(list: seq<OutputPackage>, result: seq<OutputPackage>, repos: seq<string>, files: map<string, PackagesFile>) {
    && (forall i :: |list| <= i < |result| ==> !CheckIfBasePackage(result[i].package))
    && (forall i :: |list| <= i < |result| ==> FromIndex(result[i], repos, files))
    && (Distinct(list) ==> Distinct(result))
  }

  lemma SoundTransitive(a: seq<OutputPackage>, b: seq<OutputPackage>, c: seq<OutputPackage>, repos: seq<string>, files: map<string, PackagesFile>)
    requires a <= b <= c
    requires Sound(a, b, repos, files) && Sound(b, c, repos, files)
    ensures Sound(a, c, repos, files)
  {
    forall i | |a| <= i < |c| ensures !CheckIfBasePackage(c[i].package) && FromIndex(c[i], repos, files) {
      if i < |b| {
        assert c[i] == b[i];
      }
    }
  }

  lemma NamesSnoc(list: seq<OutputPackage>, o: OutputPackage)
    ensures Names(list + [o]) == Names(list) + {o.package}
  {
    assert forall x :: x in list + [o] <==> x in list || x == o;
  }

  lemma NamesOfPrefix(list: seq<OutputPackage>, result: seq<OutputPackage>)
    requires list <= result
    ensures Names(list) <= Names(result)
  {
    forall x | x in list ensures x in result {
      var i :| 0 <= i < |list| && list[i] == x;
      assert result[i] == x;
    }
  }

  lemma SubsetCardinality(a: set<string>, b: set<string>)
    requires a <= b
    ensures |a| <= |b|
  {
    assert b == a + (b - a);
    assert a * (b - a) == {};
  }

  /** Appending a new index name shrinks the set of index names not yet listed. */
  lemma AppendShrinksMeasure(list: seq<OutputPackage>, o: OutputPackage, result: seq<OutputPackage>, u: set<string>)
    requires o.package in u && o.package !in Names(list)
    requires list + [o] <= result
    ensures u - Names(result) < u - Names(list)
    ensures |u - Names(result)| < |u - Names(list)|
  {
    NamesSnoc(list, o);
    NamesOfPrefix(list + [o], result);
    assert u - Names(result) <= (u - Names(list)) - {o.package};
    SubsetCardinality(u - Names(result), (u - Names(list)) - {o.package});
  }

  /** Appending one new, non-base index entry is sound. */
  lemma SoundAppend(list: seq<OutputPackage>, o: OutputPackage, repos: seq<string>, files: map<string, PackagesFile>)
    requires o.package !in Names(list)
    requires !CheckIfBasePackage(o.package) && FromIndex(o, repos, files)
    ensures Sound(list, list + [o], repos, files)
  {
    var appended := list + [o];
    if Distinct(list) {
      forall i, j | 0 <= i < j < |appended| ensures appended[i].package != appended[j].package {
        if j == |list| {
          assert appended[i] in list;
        }
      }
    }
  }

  lemma ChosenFromIndex(repos: seq<string>, files: map<string, PackagesFile>, name: string, op: string, value: string)
    requires FirstRepository(repos, files, name, op, value).Found?
    ensures var o := Chosen(repos, files, name, op, value);
      && o.package == name
      && o.package in IndexNames(repos, files)
      && FromIndex(o, repos, files)
      && ChosenEntry(repos, files, name, op, value) in Listing(files, o.repository)
  {
    var r := repos[FirstRepository(repos, files, name, op, value).index];
    var p := ChosenEntry(repos, files, name, op, value);
    assert r in repos && p in Listing(files, r);
  }

  /**
   * When no earlier repository has an accepted or panicking entry and repository i
   * accepts one, resolving appends exactly that entry and goes on with its Depends
   * and Imports.
   */
  lemma ResolveTakes(list: seq<OutputPackage>, name: string, op: string, value: string,
                     repos: seq<string>, files: map<string, PackagesFile>, i: nat)
    requires !CheckIfBasePackage(name) && name !in Names(list)
    requires i < |repos|
    requires forall k :: 0 <= k < i ==> ScanRepository(files, repos[k], name, op, value).NotFound?
    requires ScanRepository(files, repos[i], name, op, value).Found?
    ensures var p := Listing(files, repos[i])[ScanRepository(files, repos[i], name, op, value).index];
      && p.package == name
      && p.package in IndexNames(repos, files)
      && Resolve(list, name, op, value, repos, files)
         == ResolveDeps(list + [OutputPackage(p.package, p.version, repos[i])], p.dependencies, TransitiveTypes, repos, files)
  {
    FirstRepositoryAt(repos, files, name, op, value, i);
    ChosenFromIndex(repos, files, name, op, value);
  }

  /**
   * When the first repository whose scan does not come up empty meets an entry of
   * the name with an incomparable version first, the walk panics.
   */
  lemma ResolveAborts(list: seq<OutputPackage>, name: string, op: string, value: string,
                      repos: seq<string>, files: map<string, PackagesFile>, i: nat)
    requires !CheckIfBasePackage(name) && name !in Names(list)
    requires i < |repos|
    requires forall k :: 0 <= k < i ==> ScanRepository(files, repos[k], name, op, value).NotFound?
    requires ScanRepository(files, repos[i], name, op, value).Panic?
    ensures Resolve(list, name, op, value, repos, files) == Aborted
  {
    FirstRepositoryAt(repos, files, name, op, value, i);
  }

  /** When no repository has an accepted or panicking entry, resolving leaves the list as it is. */
  lemma ResolveMisses(list: seq<OutputPackage>, name: string, op: string, value: string,
                      repos: seq<string>, files: map<string, PackagesFile>)
    requires forall k :: 0 <= k < |repos| ==> ScanRepository(files, repos[k], name, op, value).NotFound?
    ensures Resolve(list, name, op, value, repos, files) == Done(list)
  {
    FirstRepositoryNone(repos, files, name, op, value);
  }

  /**
   * resolveDependenciesRecursively on values: the output list after resolving
   * `name` under the constraint (op, value) from `list`, or Aborted.
   */
  ghost function Resolve(list: seq<OutputPackage>, name: string, op: string, value: string,
                         repos: seq<string>, files: map<string, PackagesFile>): (w: Walk)
    decreases |IndexNames(repos, files) - Names(list)|, 0, 0
    ensures w.Done? ==> Grows(list, w.list, repos, files)
  {
    if CheckIfBasePackage(name) || CheckIfPackageOnOutputList(name, list) then Done(list)
    else
      var k := FirstRepository(repos, files, name, op, value);
      if k.NotFound? then Done(list)
      else if k.Panic? then Aborted
      else
        var o := Chosen(repos, files, name, op, value);
        ChosenFromIndex(repos, files, name, op, value);
        var appended := list + [o];
        AppendShrinksMeasure(list, o, appended, IndexNames(repos, files));
        NamesSnoc(list, o);
        var w := ResolveDeps(appended, ChosenEntry(repos, files, name, op, value).dependencies, TransitiveTypes, repos, files);
        GrowsThen(list, appended, w, repos, files);
        w
  }

  /**
   * One iteration of a dependency loop: an entry of a followed type that is neither
   * a base package nor already listed is resolved; any other entry is skipped.
   */
  ghost function Step(list: seq<OutputPackage>, d: Dependency, followed: set<string>,
                      repos: seq<string>, files: map<string, PackagesFile>): (w: Walk)
    decreases |IndexNames(repos, files) - Names(list)|, 1, 0
    ensures w.Done? ==> Grows(list, w.list, repos, files)
  {
    if d.dependencyType in followed && !CheckIfBasePackage(d.dependencyName)
       && !CheckIfPackageOnOutputList(d.dependencyName, list)
    then Resolve(list, d.dependencyName, d.versionOperator, d.versionValue, repos, files)
    else Done(list)
  }

  /** A dependency loop: each entry of `deps` in order, up to the first panic. */
  ghost function ResolveDeps(list: seq<OutputPackage>, deps: seq<Dependency>, followed: set<string>,
                             repos: seq<string>, files: map<string, PackagesFile>): (w: Walk)
    decreases |IndexNames(repos, files) - Names(list)|, 1, |deps|
    ensures w.Done? ==> Grows(list, w.list, repos, files)
  {
    if deps == [] then Done(list)
    else
      var next := Step(list, deps[0], followed, repos, files);
      if next.Aborted? then Aborted
      else
        NamesOfPrefix(list, next.list);
        SubsetCardinality(IndexNames(repos, files) - Names(next.list), IndexNames(repos, files) - Names(list));
        var w := ResolveDeps(next.list, deps[1..], followed, repos, files);
        GrowsThen(list, next.list, w, repos, files);
        w
  }

  /** The output list seeded with the root packages, in input order. */
  function Roots(packages: seq<PackageDescription>): (roots: seq<OutputPackage>)
    ensures |roots| == |packages|
  {
    if packages == [] then []
    else Roots(packages[..|packages| - 1]) + [OutputPackage(packages[|packages| - 1].package, packages[|packages| - 1].version, packages[|packages| - 1].repository)]
  }

  /** Each input package is seeded as itself, at its own position. */
  lemma {:induction false} RootsAt(packages: seq<PackageDescription>)
    ensures forall i :: 0 <= i < |packages| ==>
      Roots(packages)[i] == OutputPackage(packages[i].package, packages[i].version, packages[i].repository)
  {
    if packages != [] {
      var front := packages[..|packages| - 1];
      RootsAt(front);
      assert forall i :: 0 <= i < |front| ==> packages[i] == front[i];
    }
  }

  /** The second loop of constructOutputPackageList: each root's dependencies in turn. */
  ghost function ResolveRoots(list: seq<OutputPackage>, packages: seq<PackageDescription>,
                              repos: seq<string>, files: map<string, PackagesFile>): (w: Walk)
    decreases |packages|
    ensures w.Done? ==> Grows(list, w.list, repos, files)
  {
    if packages == [] then Done(list)
    else
      var next := ResolveDeps(list, packages[0].dependencies, RootTypes, repos, files);
      if next.Aborted? then Aborted
      else
        var w := ResolveRoots(next.list, packages[1..], repos, files);
        GrowsThen(list, next.list, w, repos, files);
        w
  }

  /** constructOutputPackageList on values. */
  ghost function Construct(packages: seq<PackageDescription>, files: map<string, PackagesFile>, repos: seq<string>): Walk {
    ResolveRoots(Roots(packages), packages, repos, files)
  }

  // ---------------------------------------------------------------------
  // Soundness of the walk

  /**
   * Resolving a name appends only non-base packages taken from the indexes, and
   * never a name twice.
   */
  lemma {:induction false} ResolveSound(list: seq<OutputPackage>, name: string, op: string, value: string,
                                        repos: seq<string>, files: map<string, PackagesFile>)
    decreases |IndexNames(repos, files) - Names(list)|, 0, 0
    ensures var w := Resolve(list, name, op, value, repos, files);
      w.Done? ==> Sound(list, w.list, repos, files)
  {
    var w := Resolve(list, name, op, value, repos, files);
    if CheckIfBasePackage(name) {
    } else if CheckIfPackageOnOutputList(name, list) {
      assert w == Done(list);
    } else if FirstRepository(repos, files, name, op, value).Found? {
      var o := Chosen(repos, files, name, op, value);
      var deps := ChosenEntry(repos, files, name, op, value).dependencies;
      ChosenFromIndex(repos, files, name, op, value);
      var appended := list + [o];
      AppendShrinksMeasure(list, o, appended, IndexNames(repos, files));
      assert w == ResolveDeps(appended, deps, TransitiveTypes, repos, files);
      SoundAppend(list, o, repos, files);
      ResolveDepsSound(appended, deps, TransitiveTypes, repos, files);
      if w.Done? {
        SoundTransitive(list, appended, w.list, repos, files);
      }
    }
  }

  lemma {:induction false} StepSound(list: seq<OutputPackage>, d: Dependency, followed: set<string>,
                                     repos: seq<string>, files: map<string, PackagesFile>)
    decreases |IndexNames(repos, files) - Names(list)|, 1, 0
    ensures var w := Step(list, d, followed, repos, files);
      w.Done? ==> Sound(list, w.list, repos, files)
  {
    if d.dependencyType in followed && !CheckIfBasePackage(d.dependencyName)
       && !CheckIfPackageOnOutputList(d.dependencyName, list) {
      ResolveSound(list, d.dependencyName, d.versionOperator, d.versionValue, repos, files);
    }
  }

  lemma {:induction false} ResolveDepsSound(list: seq<OutputPackage>, deps: seq<Dependency>, followed: set<string>,
                                            repos: seq<string>, files: map<string, PackagesFile>)
    decreases |IndexNames(repos, files) - Names(list)|, 1, |deps|
    ensures var w := ResolveDeps(list, deps, followed, repos, files);
      w.Done? ==> Sound(list, w.list, repos, files)
  {
    if deps != [] {
      var next := Step(list, deps[0], followed, repos, files);
      if next.Done? {
        StepSound(list, deps[0], followed, repos, files);
        NamesOfPrefix(list, next.list);
        SubsetCardinality(IndexNames(repos, files) - Names(next.list), IndexNames(repos, files) - Names(list));
        ResolveDepsSound(next.list, deps[1..], followed, repos, files);
        var w := ResolveDeps(next.list, deps[1..], followed, repos, files);
        if w.Done? {
          SoundTransitive(list, next.list, w.list, repos, files);
          assert ResolveDeps(list, deps, followed, repos, files) == w;
        }
      }
    }
  }

  lemma {:induction false} ResolveRootsSound(list: seq<OutputPackage>, packages: seq<PackageDescription>,
                                             repos: seq<string>, files: map<string, PackagesFile>)
    decreases |packages|
    ensures var w := ResolveRoots(list, packages, repos, files);
      w.Done? ==> Sound(list, w.list, repos, files)
  {
    if packages != [] {
      var next := ResolveDeps(list, packages[0].dependencies, RootTypes, repos, files);
      if next.Done? {
        ResolveDepsSound(list, packages[0].dependencies, RootTypes, repos, files);
        ResolveRootsSound(next.list, packages[1..], repos, files);
        var w := ResolveRoots(next.list, packages[1..], repos, files);
        if w.Done? {
          SoundTransitive(list, next.list, w.list, repos, files);
        }
      }
    }
  }

  /**
   * The output of constructOutputPackageList, when it does not panic: the root
   * packages first, in input order, then only packages found in the repositories'
   * indexes (each with the URL of the repository it was taken from), never a base
   * package, and no name twice when the roots are distinct.
   */
  lemma ConstructSound(packages: seq<PackageDescription>, files: map<string, PackagesFile>, repos: seq<string>)
    ensures var w := Construct(packages, files, repos);
      w.Done? ==>
        && Roots(packages) <= w.list
        && (forall i :: |packages| <= i < |w.list| ==> !CheckIfBasePackage(w.list[i].package) && FromIndex(w.list[i], repos, files))
        && (Distinct(Roots(packages)) ==> Distinct(w.list))
  {
    ResolveRootsSound(Roots(packages), packages, repos, files);
  }

  // ---------------------------------------------------------------------
  // Closure: every followed dependency is dealt with

  /**
   * A requirement the output list accounts for: a base package, a name already
   * listed, or one that no repository offers in a sufficient version.
   */
  ghost predicate Covered(list: seq<OutputPackage>, name: string, op: string, value: string,
                          repos: seq<string>, files: map<string, PackagesFile>) {
    || CheckIfBasePackage(name)
    || name in Names(list)
    || FirstRepository(repos, files, name, op, value).NotFound?
  }

  /** Every dependency of a followed type is covered. */
  ghost predicate DepsCovered(list: seq<OutputPackage>, deps: seq<Dependency>, followed: set<string>,
                              repos: seq<string>, files: map<string, PackagesFile>) {
    forall k :: 0 <= k < |deps| && deps[k].dependencyType in followed ==>
      Covered(list, deps[k].dependencyName, deps[k].versionOperator, deps[k].versionValue, repos, files)
  }

  /** Index entry p stands behind output entry o: same name and version, in o's repository's index. */
  predicate Behind(p: PackageDescription, o: OutputPackage, files: map<string, PackagesFile>) {
    p in Listing(files, o.repository) && p.package == o.package && p.version == o.version
  }

  /** Output entry o has an index entry behind it whose Depends and Imports are all covered. */
  ghost predicate EntryClosed(list: seq<OutputPackage>, o: OutputPackage, repos: seq<string>, files: map<string, PackagesFile>) {
    exists p :: Behind(p, o, files) && DepsCovered(list, p.dependencies, TransitiveTypes, repos, files)
  }

  /** Every entry from position `from` on is closed. */
  ghost predicate ClosedFrom(list: seq<OutputPackage>, from: nat, repos: seq<string>, files: map<string, PackagesFile>) {
    forall i :: from <= i < |list| ==> EntryClosed(list, list[i], repos, files)
  }

  lemma DepsCoveredGrows(a: seq<OutputPackage>, b: seq<OutputPackage>, deps: seq<Dependency>, followed: set<string>,
                         repos: seq<string>, files: map<string, PackagesFile>)
    requires a <= b && DepsCovered(a, deps, followed, repos, files)
    ensures DepsCovered(b, deps, followed, repos, files)
  {
    NamesOfPrefix(a, b);
  }

  lemma EntryClosedGrows(a: seq<OutputPackage>, b: seq<OutputPackage>, o: OutputPackage,
                         repos: seq<string>, files: map<string, PackagesFile>)
    requires a <= b && EntryClosed(a, o, repos, files)
    ensures EntryClosed(b, o, repos, files)
  {
    var p :| Behind(p, o, files) && DepsCovered(a, p.dependencies, TransitiveTypes, repos, files);
    DepsCoveredGrows(a, b, p.dependencies, TransitiveTypes, repos, files);
  }

  lemma ClosedGrows(a: seq<OutputPackage>, b: seq<OutputPackage>, from: nat, repos: seq<string>, files: map<string, PackagesFile>)
    requires a <= b && from <= |a|
    requires ClosedFrom(a, from, repos, files) && ClosedFrom(b, |a|, repos, files)
    ensures ClosedFrom(b, from, repos, files)
  {
    forall i | from <= i < |a| ensures EntryClosed(b, b[i], repos, files) {
      assert b[i] == a[i];
      EntryClosedGrows(a, b, a[i], repos, files);
    }
  }

  /**
   * When resolving a name does not panic, the name is covered afterwards and every
   * entry it appended has its Depends and Imports covered.
   */
  lemma {:induction false} ResolveClosed(list: seq<OutputPackage>, name: string, op: string, value: string,
                                         repos: seq<string>, files: map<string, PackagesFile>)
    decreases |IndexNames(repos, files) - Names(list)|, 0, 0
    ensures var w := Resolve(list, name, op, value, repos, files);
      w.Done? ==>
        && ClosedFrom(w.list, |list|, repos, files)
        && Covered(w.list, name, op, value, repos, files)
  {
    var w := Resolve(list, name, op, value, repos, files);
    if CheckIfBasePackage(name) {
    } else if CheckIfPackageOnOutputList(name, list) {
      assert w == Done(list);
    } else if FirstRepository(repos, files, name, op, value).Found? {
      var o := Chosen(repos, files, name, op, value);
      var p := ChosenEntry(repos, files, name, op, value);
      ChosenFromIndex(repos, files, name, op, value);
      var appended := list + [o];
      AppendShrinksMeasure(list, o, appended, IndexNames(repos, files));
      assert w == ResolveDeps(appended, p.dependencies, TransitiveTypes, repos, files);
      ResolveDepsClosed(appended, p.dependencies, TransitiveTypes, repos, files);
      if w.Done? {
        AppendedClosed(list, o, p, w.list, repos, files);
      }
    }
  }

  /** The entry appended at |list|, with p behind it, closes the list once p's dependencies are covered. */
  lemma AppendedClosed(list: seq<OutputPackage>, o: OutputPackage, p: PackageDescription, result: seq<OutputPackage>,
                       repos: seq<string>, files: map<string, PackagesFile>)
    requires list + [o] <= result && Behind(p, o, files)
    requires ClosedFrom(result, |list| + 1, repos, files)
    requires DepsCovered(result, p.dependencies, TransitiveTypes, repos, files)
    ensures ClosedFrom(result, |list|, repos, files)
    ensures o.package in Names(result)
  {
    assert result[|list|] == o;
    assert EntryClosed(result, o, repos, files);
  }

  lemma {:induction false} StepClosed(list: seq<OutputPackage>, d: Dependency, followed: set<string>,
                                      repos: seq<string>, files: map<string, PackagesFile>)
    decreases |IndexNames(repos, files) - Names(list)|, 1, 0
    ensures var w := Step(list, d, followed, repos, files);
      w.Done? ==>
        && ClosedFrom(w.list, |list|, repos, files)
        && (d.dependencyType in followed ==> Covered(w.list, d.dependencyName, d.versionOperator, d.versionValue, repos, files))
  {
    if d.dependencyType in followed && !CheckIfBasePackage(d.dependencyName)
       && !CheckIfPackageOnOutputList(d.dependencyName, list) {
      ResolveClosed(list, d.dependencyName, d.versionOperator, d.versionValue, repos, files);
    }
  }

  /**
   * When a dependency loop does not panic, every dependency of a followed type is
   * covered afterwards and every appended entry has its Depends and Imports covered.
   */
  lemma {:induction false} ResolveDepsClosed(list: seq<OutputPackage>, deps: seq<Dependency>, followed: set<string>,
                                             repos: seq<string>, files: map<string, PackagesFile>)
    decreases |IndexNames(repos, files) - Names(list)|, 1, |deps|
    ensures var w := ResolveDeps(list, deps, followed, repos, files);
      w.Done? ==>
        && ClosedFrom(w.list, |list|, repos, files)
        && DepsCovered(w.list, deps, followed, repos, files)
  {
    if deps != [] {
      var next := Step(list, deps[0], followed, repos, files);
      if next.Done? {
        StepClosed(list, deps[0], followed, repos, files);
        NamesOfPrefix(list, next.list);
        SubsetCardinality(IndexNames(repos, files) - Names(next.list), IndexNames(repos, files) - Names(list));
        ResolveDepsClosed(next.list, deps[1..], followed, repos, files);
        var w := ResolveDeps(next.list, deps[1..], followed, repos, files);
        if w.Done? {
          ConsClosed(list, next.list, w.list, deps, followed, repos, files);
          assert ResolveDeps(list, deps, followed, repos, files) == w;
        }
      }
    }
  }

  /** The first dependency's step and the rest of the loop together close the list. */
  lemma ConsClosed(list: seq<OutputPackage>, next: seq<OutputPackage>, result: seq<OutputPackage>,
                   deps: seq<Dependency>, followed: set<string>, repos: seq<string>, files: map<string, PackagesFile>)
    requires deps != [] && list <= next <= result
    requires ClosedFrom(next, |list|, repos, files) && ClosedFrom(result, |next|, repos, files)
    requires deps[0].dependencyType in followed ==>
      Covered(next, deps[0].dependencyName, deps[0].versionOperator, deps[0].versionValue, repos, files)
    requires DepsCovered(result, deps[1..], followed, repos, files)
    ensures ClosedFrom(result, |list|, repos, files) && DepsCovered(result, deps, followed, repos, files)
  {
    ClosedGrows(next, result, |list|, repos, files);
    CoveredGrows(next, result, deps[0], followed, repos, files);
    DepsCoveredCons(result, deps, followed, repos, files);
  }

  lemma CoveredGrows(a: seq<OutputPackage>, b: seq<OutputPackage>, d: Dependency, followed: set<string>,
                     repos: seq<string>, files: map<string, PackagesFile>)
    requires a <= b
    requires d.dependencyType in followed ==> Covered(a, d.dependencyName, d.versionOperator, d.versionValue, repos, files)
    ensures d.dependencyType in followed ==> Covered(b, d.dependencyName, d.versionOperator, d.versionValue, repos, files)
  {
    NamesOfPrefix(a, b);
  }

  lemma DepsCoveredCons(list: seq<OutputPackage>, deps: seq<Dependency>, followed: set<string>,
                        repos: seq<string>, files: map<string, PackagesFile>)
    requires deps != []
    requires deps[0].dependencyType in followed ==>
      Covered(list, deps[0].dependencyName, deps[0].versionOperator, deps[0].versionValue, repos, files)
    requires DepsCovered(list, deps[1..], followed, repos, files)
    ensures DepsCovered(list, deps, followed, repos, files)
  {
    forall k | 0 < k < |deps| ensures deps[k] == deps[1..][k - 1] { }
  }

  lemma {:induction false} ResolveRootsClosed(list: seq<OutputPackage>, packages: seq<PackageDescription>,
                                              repos: seq<string>, files: map<string, PackagesFile>)
    decreases |packages|
    ensures var w := ResolveRoots(list, packages, repos, files);
      w.Done? ==>
        && ClosedFrom(w.list, |list|, repos, files)
        && forall i :: 0 <= i < |packages| ==> DepsCovered(w.list, packages[i].dependencies, RootTypes, repos, files)
  {
    if packages != [] {
      var next := ResolveDeps(list, packages[0].dependencies, RootTypes, repos, files);
      if next.Done? {
        ResolveDepsClosed(list, packages[0].dependencies, RootTypes, repos, files);
        ResolveRootsClosed(next.list, packages[1..], repos, files);
        var w := ResolveRoots(next.list, packages[1..], repos, files);
        if w.Done? {
          ClosedGrows(next.list, w.list, |list|, repos, files);
          DepsCoveredGrows(next.list, w.list, packages[0].dependencies, RootTypes, repos, files);
          forall i | 0 < i < |packages| ensures packages[i] == packages[1..][i - 1] { }
        }
      }
    }
  }

  /**
   * The output of constructOutputPackageList, when it does not panic, is closed
   * under the dependencies the walk follows: each Depends, Imports and Suggests
   * entry of a root, and each Depends and Imports entry of the index entry behind
   * each resolved package, is a base package, a name on the output, or a name no
   * repository offers in a sufficient version.
   */
  lemma ConstructClosed(packages: seq<PackageDescription>, files: map<string, PackagesFile>, repos: seq<string>)
    ensures var w := Construct(packages, files, repos);
      w.Done? ==>
        && ClosedFrom(w.list, |packages|, repos, files)
        && forall i :: 0 <= i < |packages| ==> DepsCovered(w.list, packages[i].dependencies, RootTypes, repos, files)
  {
    ResolveRootsClosed(Roots(packages), packages, repos, files);
  }

  // ---------------------------------------------------------------------
  // Further properties of the walk

  /** Resolving a name a second time changes nothing. */
  lemma ResolveIdempotent(list: seq<OutputPackage>, name: string, op: string, value: string,
                          repos: seq<string>, files: map<string, PackagesFile>)
    ensures var once := Resolve(list, name, op, value, repos, files);
      once.Done? ==> Resolve(once.list, name, op, value, repos, files) == once
  {
    var once := Resolve(list, name, op, value, repos, files);
    if !CheckIfBasePackage(name) && !CheckIfPackageOnOutputList(name, list) && FirstRepository(repos, files, name, op, value).Found? {
      var o := Chosen(repos, files, name, op, value);
      ChosenFromIndex(repos, files, name, op, value);
      var appended := list + [o];
      assert once == ResolveDeps(appended, ChosenEntry(repos, files, name, op, value).dependencies, TransitiveTypes, repos, files);
      if once.Done? {
        assert once.list[|list|] == o;
        assert name in Names(once.list);
      }
    }
  }

  /** Dependencies of types that are not followed are never resolved. */
  lemma {:induction false} ResolveDepsUnfollowed(list: seq<OutputPackage>, deps: seq<Dependency>, followed: set<string>,
                                                 repos: seq<string>, files: map<string, PackagesFile>)
    requires forall k :: 0 <= k < |deps| ==> deps[k].dependencyType !in followed
    decreases |deps|
    ensures ResolveDeps(list, deps, followed, repos, files) == Done(list)
  {
    if deps != [] {
      assert Step(list, deps[0], followed, repos, files) == Done(list);
      ResolveDepsUnfollowed(list, deps[1..], followed, repos, files);
    }
  }

  /** The entries of `deps` whose type is followed, in their order. */
  function FollowedOnly(deps: seq<Dependency>, followed: set<string>): (kept: seq<Dependency>)
    decreases |deps|
    ensures |kept| <= |deps|
    ensures forall d :: d in kept <==> d in deps && d.dependencyType in followed
  {
    if deps == [] then []
    else
      assert forall d :: d in deps <==> d == deps[0] || d in deps[1..];
      (if deps[0].dependencyType in followed then [deps[0]] else []) + FollowedOnly(deps[1..], followed)
  }

  /**
   * Only followed dependencies matter: a dependency loop over any list, with
   * LinkingTo, Enhances (and Suggests below the roots) among its entries, ends
   * exactly as the loop over the followed entries alone.
   */
  lemma {:induction false} ResolveDepsFollowedOnly(list: seq<OutputPackage>, deps: seq<Dependency>, followed: set<string>,
                                                   repos: seq<string>, files: map<string, PackagesFile>)
    decreases |deps|
    ensures ResolveDeps(list, deps, followed, repos, files)
         == ResolveDeps(list, FollowedOnly(deps, followed), followed, repos, files)
  {
    if deps != [] {
      var rest := FollowedOnly(deps[1..], followed);
      if deps[0].dependencyType in followed {
        var kept := [deps[0]] + rest;
        assert FollowedOnly(deps, followed) == kept;
        assert kept[0] == deps[0] && kept[1..] == rest;
        var next := Step(list, deps[0], followed, repos, files);
        if next.Done? {
          ResolveDepsFollowedOnly(next.list, deps[1..], followed, repos, files);
        }
      } else {
        assert FollowedOnly(deps, followed) == rest;
        assert Step(list, deps[0], followed, repos, files) == Done(list);
        ResolveDepsFollowedOnly(list, deps[1..], followed, repos, files);
      }
    }
  }

  /** A dependency on a base package or on a package already listed is skipped. */
  lemma ResolveDepsSkipped(list: seq<OutputPackage>, deps: seq<Dependency>, followed: set<string>,
                           repos: seq<string>, files: map<string, PackagesFile>)
    requires forall k :: 0 <= k < |deps| ==>
      CheckIfBasePackage(deps[k].dependencyName) || deps[k].dependencyName in Names(list)
    decreases |deps|
    ensures ResolveDeps(list, deps, followed, repos, files) == Done(list)
  {
    if deps != [] {
      assert Step(list, deps[0], followed, repos, files) == Done(list);
      ResolveDepsSkipped(list, deps[1..], followed, repos, files);
    }
  }

  /**
   * The scan of one repository's index in resolveDependenciesRecursively: entries
   * of other packages and entries of the package in an insufficient version are
   * passed over, the first entry that satisfies the constraint is taken, and an
   * entry of the package whose version cannot be compared panics.
   */
  method FindSufficient(entries: seq<PackageDescription>, name: string, versionOperator: string, versionValue: string)
    returns (s: Search)
    ensures s == FirstSufficient(entries, name, versionOperator, versionValue)
  {
    var j := 0;
    while j < |entries|
      invariant 0 <= j <= |entries|
      invariant FirstSufficient(entries, name, versionOperator, versionValue)
        == Offset(FirstSufficient(entries[j..], name, versionOperator, versionValue), j)
    {
      var p := entries[j];
      FirstSufficientStep(entries, name, versionOperator, versionValue, j);
      if p.package == name {
        if !Versions.Comparable(p.version, versionOperator, versionValue) {
          // checkIfVersionSufficient indexes an empty component list here
          return Panic;
        }
        var sufficient := Versions.CheckIfVersionSufficient(p.version, versionOperator, versionValue);
        if !sufficient {
          j := j + 1;
          continue;
        }
        return Found(j);
      }
      j := j + 1;
    }
    assert entries[j..] == [];
    return NotFound;
  }

  /** The scan from position j panics on entry j, accepts it, or goes on from j + 1. */
  lemma FirstSufficientStep(entries: seq<PackageDescription>, name: string, op: string, value: string, j: nat)
    requires j < |entries|
    ensures FirstSufficient(entries[j..], name, op, value)
      == if PanicsOn(entries[j], name, op, value) then Panic
         else if Matches(entries[j], name, op, value) then Found(0)
         else Offset(FirstSufficient(entries[j + 1..], name, op, value), 1)
  {
    assert entries[j..][0] == entries[j] && entries[j..][1..] == entries[j + 1..];
  }

  /** The shared output list that the Go code passes around as *[]OutputPackage. */
  class OutputList {
    var packages: seq<OutputPackage>

    constructor ()
      ensures packages == []
    {
      packages := [];
    }

    /**
     * resolveDependenciesRecursively (the recursion level only indents log lines
     * and is left out); `aborted` reports the panic that ends the program.
     */
    method ResolveDependenciesRecursively(name: string, versionOperator: string, versionValue: string,
                                          repositoryList: seq<string>, packagesFiles: map<string, PackagesFile>)
      returns (aborted: bool)
      modifies this
      decreases IndexNames(repositoryList, packagesFiles) - Names(packages), 0, 1
      ensures var w := Resolve(old(packages), name, versionOperator, versionValue, repositoryList, packagesFiles);
        aborted == w.Aborted? && (w.Done? ==> packages == w.list)
    {
      if CheckIfBasePackage(name) {
        return false;
      }
      if CheckIfPackageOnOutputList(name, packages) {
        return false;
      }
      var i := 0;
      while i < |repositoryList|
        invariant 0 <= i <= |repositoryList|
        invariant packages == old(packages)
        invariant forall j :: 0 <= j < i ==> ScanRepository(packagesFiles, repositoryList[j], name, versionOperator, versionValue).NotFound?
      {
        var found;
        found, aborted := ResolveFromRepository(name, versionOperator, versionValue, i, repositoryList, packagesFiles);
        if found {
          return;
        }
        i := i + 1;
      }
      ResolveMisses(packages, name, versionOperator, versionValue, repositoryList, packagesFiles);
      return false;
    }

    /**
     * The scan of repository i's index inside resolveDependenciesRecursively: an
     * entry of the name in too low a version is passed over; the first one in a
     * sufficient version is appended with the repository's URL and its Depends and
     * Imports are resolved; one whose version cannot be compared panics.
     */
    method ResolveFromRepository(name: string, versionOperator: string, versionValue: string, i: nat,
                                 repositoryList: seq<string>, packagesFiles: map<string, PackagesFile>)
      returns (found: bool, aborted: bool)
      requires i < |repositoryList|
      requires !CheckIfBasePackage(name) && name !in Names(packages)
      requires forall j :: 0 <= j < i ==> ScanRepository(packagesFiles, repositoryList[j], name, versionOperator, versionValue).NotFound?
      modifies this
      decreases IndexNames(repositoryList, packagesFiles) - Names(packages), 0, 0
      ensures found == !ScanRepository(packagesFiles, repositoryList[i], name, versionOperator, versionValue).NotFound?
      ensures !found ==> packages == old(packages) && !aborted
      ensures found ==> var w := Resolve(old(packages), name, versionOperator, versionValue, repositoryList, packagesFiles);
        aborted == w.Aborted? && (w.Done? ==> packages == w.list)
    {
      var r := repositoryList[i];
      var entries := Listing(packagesFiles, r);
      var s := FindSufficient(entries, name, versionOperator, versionValue);
      if s.NotFound? {
        return false, false;
      }
      if s.Panic? {
        ResolveAborts(packages, name, versionOperator, versionValue, repositoryList, packagesFiles, i);
        return true, true;
      }
      var p := entries[s.index];
      var o := OutputPackage(p.package, p.version, r);
      ResolveTakes(packages, name, versionOperator, versionValue, repositoryList, packagesFiles, i);
      AppendShrinksMeasure(packages, o, packages + [o], IndexNames(repositoryList, packagesFiles));
      packages := packages + [o];
      aborted := ResolveDependencyList(p.dependencies, TransitiveTypes, repositoryList, packagesFiles);
      found := true;
    }

    /**
     * One iteration of the dependency loops of construct.go: an entry of a followed
     * type is resolved unless it is a base package or already on the list.
     */
    method ResolveDependency(d: Dependency, followed: set<string>,
                             repositoryList: seq<string>, packagesFiles: map<string, PackagesFile>)
      returns (aborted: bool)
      modifies this
      decreases IndexNames(repositoryList, packagesFiles) - Names(packages), 1, 0
      ensures var w := Step(old(packages), d, followed, repositoryList, packagesFiles);
        aborted == w.Aborted? && (w.Done? ==> packages == w.list)
    {
      aborted := false;
      if d.dependencyType in followed {
        var skipDependency := CheckIfBasePackage(d.dependencyName) || CheckIfPackageOnOutputList(d.dependencyName, packages);
        if !skipDependency {
          aborted := ResolveDependenciesRecursively(d.dependencyName, d.versionOperator, d.versionValue,
                                                    repositoryList, packagesFiles);
        }
      }
    }

    /**
     * The dependency loop shared by constructOutputPackageList (followed types
     * Depends, Imports, Suggests) and resolveDependenciesRecursively (Depends, Imports).
     */
    method ResolveDependencyList(deps: seq<Dependency>, followed: set<string>,
                                 repositoryList: seq<string>, packagesFiles: map<string, PackagesFile>)
      returns (aborted: bool)
      modifies this
      decreases IndexNames(repositoryList, packagesFiles) - Names(packages), 1, |deps|
      ensures var w := ResolveDeps(old(packages), deps, followed, repositoryList, packagesFiles);
        aborted == w.Aborted? && (w.Done? ==> packages == w.list)
    {
      var k := 0;
      while k < |deps|
        invariant 0 <= k <= |deps|
        invariant Grows(old(packages), packages, repositoryList, packagesFiles)
        invariant ResolveDeps(packages, deps[k..], followed, repositoryList, packagesFiles)
                  == ResolveDeps(old(packages), deps, followed, repositoryList, packagesFiles)
      {
        ghost var before := packages;
        NamesOfPrefix(old(packages), packages);
        assert deps[k..][0] == deps[k] && deps[k..][1..] == deps[k + 1..];
        aborted := ResolveDependency(deps[k], followed, repositoryList, packagesFiles);
        if aborted {
          return;
        }
        GrowsTransitive(old(packages), before, packages, repositoryList, packagesFiles);
        k := k + 1;
      }
      assert deps[k..] == [];
      return false;
    }
  }

  /** constructOutputPackageList: the output list, or Aborted when the walk panicked. */
  method ConstructOutputPackageList(packages: seq<PackageDescription>, packagesFiles: map<string, PackagesFile>,
                                    repositoryList: seq<string>)
    returns (outcome: Walk)
    ensures outcome == Construct(packages, packagesFiles, repositoryList)
  {
    var out := new OutputList();
    var i := 0;
    while i < |packages|
      invariant 0 <= i <= |packages|
      invariant out.packages == Roots(packages[..i])
    {
      out.packages := out.packages + [OutputPackage(packages[i].package, packages[i].version, packages[i].repository)];
      assert packages[..i + 1][..i] == packages[..i];
      i := i + 1;
    }
    assert packages[..i] == packages;
    i := 0;
    while i < |packages|
      invariant 0 <= i <= |packages|
      invariant ResolveRoots(out.packages, packages[i..], repositoryList, packagesFiles)
                == Construct(packages, packagesFiles, repositoryList)
    {
      assert packages[i..][0] == packages[i] && packages[i..][1..] == packages[i + 1..];
      var aborted := out.ResolveDependencyList(packages[i].dependencies, RootTypes, repositoryList, packagesFiles);
      if aborted {
        return Aborted;
      }
      i := i + 1;
    }
    assert packages[i..] == [];
    return Done(out.packages);
  }
}
