/**
 * The lockfile assembly of cmd/renv.go: the resolved package list is filtered,
 * keyed by package name (a later entry of the same name replacing an earlier
 * one), each package's repository URL is replaced by the alias the repository
 * map gives it, and the repository map itself is listed as (alias, URL) pairs.
 *
 * Go's map iteration order is unspecified, so both searches over
 * `repositoryMap` pick keys in an arbitrary order (`:|`), and the contracts
 * hold for every order.
 */
module Renv {
  import opened Structs

  /** An entry that was not cleared while the list was built: name, version and source are all set. */
  predicate Kept(p: PackageDescription) {
    p.package != "" && p.version != "" && p.source != ""
  }

  /** The names of the kept entries. */
  function KeptNames(packageList: seq<PackageDescription>): set<string>
    decreases |packageList|
  {
    if packageList == [] then {}
    else
      var p := packageList[|packageList| - 1];
      KeptNames(packageList[..|packageList| - 1]) + (if Kept(p) then {p.package} else {})
  }

  /** The index of the last kept entry called `name`, or -1 when there is none. */
  function LastKept(packageList: seq<PackageDescription>, name: string): (i: int)
    decreases |packageList|
    ensures -1 <= i < |packageList|
    ensures i >= 0 ==> Kept(packageList[i]) && packageList[i].package == name
  {
    if packageList == [] then -1
    else
      var p := packageList[|packageList| - 1];
      if Kept(p) && p.package == name then |packageList| - 1 else LastKept(packageList[..|packageList| - 1], name)
  }

  /**
   * What getRepositoryKeyByValue may return for `url`: an alias the map sends to
   * `url` when there is one, and "" otherwise.
   */
  predicate IsAliasFor(repositoryMap: map<string, string>, url: string, key: string) {
    if url in repositoryMap.Values then key in repositoryMap && repositoryMap[key] == url else key == ""
  }

  /**
   * The lockfile entry stored under `name`: the last kept entry of that name,
   * with its repository URL replaced by an alias of it.
   */
  predicate StoredAs(packageList: seq<PackageDescription>, repositoryMap: map<string, string>,
                     name: string, entry: PackageDescription) {
    var i := LastKept(packageList, name);
    i >= 0 && entry == packageList[i].(repository := entry.repository)
    && IsAliasFor(repositoryMap, packageList[i].repository, entry.repository)
  }

  /** The aliases of a repository listing, as a set. */
  function Names(repositories: seq<RenvLockRepository>): set<string>
    decreases |repositories|
  {
    if repositories == [] then {}
    else Names(repositories[..|repositories| - 1]) + {repositories[|repositories| - 1].name}
  }

  /** No alias is listed twice. */
  predicate DistinctNames(repositories: seq<RenvLockRepository>) {
    forall i, j :: 0 <= i < j < |repositories| ==> repositories[i].name != repositories[j].name
  }

  /**
   * The listing holds each entry of the map exactly once, as (alias, URL), in
   * some order.
   */
  predicate ListsMap(repositories: seq<RenvLockRepository>, repositoryMap: map<string, string>) {
    && Names(repositories) == repositoryMap.Keys
    && DistinctNames(repositories)
    && forall i :: 0 <= i < |repositories| ==>
         repositories[i].name in repositoryMap && repositories[i].url == repositoryMap[repositories[i].name]
  }

  /** getRepositoryKeyByValue */
  method GetRepositoryKeyByValue(repositoryURL: string, repositoryMap: map<string, string>) returns (key: string)
    ensures IsAliasFor(repositoryMap, repositoryURL, key)
  {
    var remaining := repositoryMap.Keys;
    while remaining != {}
      invariant remaining <= repositoryMap.Keys
      invariant forall k :: k in repositoryMap && k !in remaining ==> repositoryMap[k] != repositoryURL
      decreases remaining
    {
      var k :| k in remaining;
      if repositoryMap[k] == repositoryURL {
        return k;
      }
      remaining := remaining - {k};
    }
    return "";
  }

  lemma NamesHas(repositories: seq<RenvLockRepository>, i: nat)
    requires i < |repositories|
    decreases |repositories|
    ensures repositories[i].name in Names(repositories)
  {
    if i < |repositories| - 1 {
      NamesHas(repositories[..|repositories| - 1], i);
    }
  }

  /** The second loop of generateRenvLock: the repository map listed as (alias, URL) pairs. */
  method ListRepositories(repositoryMap: map<string, string>) returns (repositories: seq<RenvLockRepository>)
    ensures ListsMap(repositories, repositoryMap)
  {
    repositories := [];
    var remaining := repositoryMap.Keys;
    while remaining != {}
      invariant remaining <= repositoryMap.Keys
      invariant Names(repositories) == repositoryMap.Keys - remaining
      invariant DistinctNames(repositories)
      invariant forall i :: 0 <= i < |repositories| ==>
        repositories[i].name in repositoryMap && repositories[i].url == repositoryMap[repositories[i].name]
      decreases remaining
    {
      var k :| k in remaining;
      forall i | 0 <= i < |repositories| ensures repositories[i].name != k {
        NamesHas(repositories, i);
      }
      ghost var before := repositories;
      repositories := repositories + [RenvLockRepository(k, repositoryMap[k])];
      assert repositories[..|repositories| - 1] == before;
      remaining := remaining - {k};
    }
  }

  /** The package map built so far holds exactly the stored entries of `packageList`. */
  predicate StoresAll(packages: map<string, PackageDescription>, packageList: seq<PackageDescription>,
                      repositoryMap: map<string, string>) {
    && packages.Keys == KeptNames(packageList)
    && forall name :: name in packages ==> StoredAs(packageList, repositoryMap, name, packages[name])
  }

  /** A cleared entry leaves the package map as it was. */
  lemma StoreCleared(packages: map<string, PackageDescription>, packageList: seq<PackageDescription>,
                     repositoryMap: map<string, string>, i: nat)
    requires i < |packageList| && !Kept(packageList[i])
    requires StoresAll(packages, packageList[..i], repositoryMap)
    ensures StoresAll(packages, packageList[..i + 1], repositoryMap)
  {
    assert packageList[..i + 1][..i] == packageList[..i];
  }

  /** A kept entry, with its repository replaced by an alias, overwrites whatever its name held. */
  lemma StoreKept(packages: map<string, PackageDescription>, packageList: seq<PackageDescription>,
                  repositoryMap: map<string, string>, i: nat, key: string)
    requires i < |packageList| && Kept(packageList[i])
    requires IsAliasFor(repositoryMap, packageList[i].repository, key)
    requires StoresAll(packages, packageList[..i], repositoryMap)
    ensures StoresAll(packages[packageList[i].package := packageList[i].(repository := key)],
                      packageList[..i + 1], repositoryMap)
  {
    var front, next := packageList[..i], packageList[..i + 1];
    assert next[..i] == front;
    var p := packageList[i];
    var updated := packages[p.package := p.(repository := key)];
    forall name | name in updated
      ensures StoredAs(next, repositoryMap, name, updated[name])
    {
      if name != p.package {
        assert LastKept(next, name) == LastKept(front, name);
      }
    }
  }

  /** The first loop of generateRenvLock: the kept entries keyed by name, repositories replaced by aliases. */
  method StorePackages(packageList: seq<PackageDescription>, repositoryMap: map<string, string>)
    returns (packages: map<string, PackageDescription>)
    ensures StoresAll(packages, packageList, repositoryMap)
  {
    packages := map[];
    var i := 0;
    while i < |packageList|
      invariant 0 <= i <= |packageList|
      invariant StoresAll(packages, packageList[..i], repositoryMap)
    {
      var p := packageList[i];
      if p.package == "" || p.version == "" || p.source == "" {
        StoreCleared(packages, packageList, repositoryMap, i);
        i := i + 1;
        continue;
      }
      var repositoryKey := GetRepositoryKeyByValue(p.repository, repositoryMap);
      StoreKept(packages, packageList, repositoryMap, i, repositoryKey);
      p := p.(repository := repositoryKey);
      packages := packages[p.package := p];
      i := i + 1;
    }
    assert packageList[..i] == packageList;
  }

  /** generateRenvLock, returning the lockfile it builds. */
  method GenerateRenvLock(packageList: seq<PackageDescription>, repositoryMap: map<string, string>)
    returns (outputRenvLock: RenvLock)
    ensures outputRenvLock.packages.Keys == KeptNames(packageList)
    ensures forall name :: name in outputRenvLock.packages ==>
      StoredAs(packageList, repositoryMap, name, outputRenvLock.packages[name])
    ensures ListsMap(outputRenvLock.r.repositories, repositoryMap)
  {
    var packages := StorePackages(packageList, repositoryMap);
    var repositories := ListRepositories(repositoryMap);
    outputRenvLock := RenvLock(RenvLockContents(repositories), packages);
  }

  // ---------------------------------------------------------------------
  // Properties of the lockfile

  /** No kept entry of that name comes after the one LastKept finds. */
  lemma {:induction false} LastKeptIsLast(packageList: seq<PackageDescription>, name: string)
    decreases |packageList|
    ensures forall j :: LastKept(packageList, name) < j < |packageList| ==>
      !(Kept(packageList[j]) && packageList[j].package == name)
  {
    if packageList != [] {
      var front := packageList[..|packageList| - 1];
      LastKeptIsLast(front, name);
      assert forall j :: 0 <= j < |front| ==> front[j] == packageList[j];
    }
  }

  /** A name is stored exactly when some kept entry carries it. */
  lemma {:induction false} KeptNamesLastKept(packageList: seq<PackageDescription>, name: string)
    decreases |packageList|
    ensures name in KeptNames(packageList) <==> LastKept(packageList, name) >= 0
  {
    if packageList != [] {
      KeptNamesLastKept(packageList[..|packageList| - 1], name);
    }
  }

  /**
   * A stored entry is under its own name, was not cleared, and differs from its
   * input entry in the repository only.
   */
  lemma StoredEntry(packageList: seq<PackageDescription>, repositoryMap: map<string, string>,
                    name: string, entry: PackageDescription)
    requires StoredAs(packageList, repositoryMap, name, entry)
    ensures entry.package == name && Kept(entry)
    ensures var p := packageList[LastKept(packageList, name)];
      && entry.version == p.version && entry.source == p.source && entry.dependencies == p.dependencies
      && entry.remoteType == p.remoteType && entry.remoteSha == p.remoteSha
  {
  }

  /** A cleared entry never reaches the lockfile unless a kept entry with the same name does. */
  lemma ClearedNotStored(packageList: seq<PackageDescription>, i: nat)
    requires i < |packageList| && !Kept(packageList[i])
    requires forall j :: 0 <= j < |packageList| && Kept(packageList[j]) ==> packageList[j].package != packageList[i].package
    ensures packageList[i].package !in KeptNames(packageList)
  {
    KeptNamesLastKept(packageList, packageList[i].package);
  }

  /** Under a map that gives each URL one alias, getRepositoryKeyByValue has only one possible answer. */
  lemma AliasUnique(repositoryMap: map<string, string>, url: string, k1: string, k2: string)
    requires forall a, b :: a in repositoryMap && b in repositoryMap && repositoryMap[a] == repositoryMap[b] ==> a == b
    requires IsAliasFor(repositoryMap, url, k1) && IsAliasFor(repositoryMap, url, k2)
    ensures k1 == k2
  {
  }

  /**
   * The alias a lockfile entry carries for a listed URL is one of the lockfile's
   * repositories, paired there with that URL.
   */
  lemma {:induction false} AliasListed(repositories: seq<RenvLockRepository>, repositoryMap: map<string, string>,
                                       url: string, key: string)
    requires ListsMap(repositories, repositoryMap)
    requires IsAliasFor(repositoryMap, url, key) && url in repositoryMap.Values
    ensures exists i :: 0 <= i < |repositories| && repositories[i] == RenvLockRepository(key, url)
  {
    var i := NameIndex(repositories, key);
  }

  /** A name of a listing sits at some position of it. */
  lemma {:induction false} NameIndex(repositories: seq<RenvLockRepository>, name: string) returns (i: nat)
    requires name in Names(repositories)
    decreases |repositories|
    ensures i < |repositories| && repositories[i].name == name
  {
    var last := |repositories| - 1;
    if repositories[last].name == name {
      i := last;
    } else {
      i := NameIndex(repositories[..last], name);
    }
  }
}
