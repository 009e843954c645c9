/**
 * The records of cmd/structs.go (JSON tags dropped). They carry no behaviour of
 * their own; every field is a Go `string` unless noted.
 */
module Structs {

  /** One entry of a Depends/Imports/Suggests/Enhances/LinkingTo list. */
  datatype Dependency = Dependency(
    dependencyType: string,
    dependencyName: string,
    versionOperator: string,
    versionValue: string)

  /**
   * An R package, either one of the git-hosted input packages (Source 'GitHub' or
   * 'GitLab', Remote* fields set) or an entry of a repository PACKAGES index.
   */
  datatype PackageDescription = PackageDescription(
    package: string,
    version: string,
    source: string,
    repository: string,
    dependencies: seq<Dependency>,
    remoteType: string,
    remoteHost: string,
    remoteUsername: string,
    remoteRepo: string,
    remoteSubdir: string,
    remoteRef: string,
    remoteSha: string)

  /** The parsed PACKAGES index of one package repository. */
  datatype PackagesFile = PackagesFile(packages: seq<PackageDescription>)

  datatype RenvLockRepository = RenvLockRepository(name: string, url: string)

  datatype RenvLockContents = RenvLockContents(repositories: seq<RenvLockRepository>)

  /** The lockfile: repository aliases under R, packages keyed by name. */
  datatype RenvLock = RenvLock(r: RenvLockContents, packages: map<string, PackageDescription>)

  /** A downloaded DESCRIPTION file with the git coordinates it came from. */
  datatype DescriptionFile = DescriptionFile(
    contents: string,
    packageSource: string,
    remoteType: string,
    remoteHost: string,
    remoteUsername: string,
    remoteRepo: string,
    remoteSubdir: string,
    remoteRef: string,
    remoteSha: string)
}
