/**
 * Packages, their dependencies and the repository they are resolved against.
 * The repository and the framework-compatibility rule belong to the NuGet library;
 * the model keeps only what the core consumes from them.
 */
module Packages {

  import opened Wrappers
  import opened Versions

  /** A target framework, known only by its name. */
  type FrameworkName = string

  /** A named package together with the version specification another package places on it. */
  datatype PackageDependency = PackageDependency(id: string, versionSpec: VersionSpec)

  /** The dependencies a package declares for one target framework (or for all, when absent). */
  datatype PackageDependencySet = PackageDependencySet(
    targetFramework: Option<FrameworkName>, dependencies: seq<PackageDependency>)

  datatype Package = Package(id: string, version: SemanticVersion, dependencySets: seq<PackageDependencySet>)

  /**
   * `GetCompatiblePackageDependencies`: the dependencies of a package that are compatible
   * with an optional target framework. Which sets are compatible is decided by NuGet,
   * so the rule is a parameter of every operation that needs it.
   */
  type FrameworkFilter = (Package, Option<FrameworkName>) -> seq<PackageDependency>

  /** A repository, reduced to what `FindPackage` answers: the most recent package of each id. */
  type Repository = map<string, Package>

  /** `FindPackage(id)`: the most recent package with the given id, if the repository has one. */
  function FindPackage(repository: Repository, id: string): (r: Option<Package>)
    ensures r.Some? <==> id in repository
    ensures r.Some? ==> r.value == repository[id]
  {
    if id in repository then Some(repository[id]) else None
  }

  /** `GetFullName`: the package id, a space, then the version, as in "A 1.2.4". */
  function GetFullName(package: Package): (name: string)
    ensures |name| > |package.id| + 1
    ensures name[..|package.id|] == package.id && name[|package.id|] == ' '
    ensures name[|package.id| + 1..] == VersionToString(package.version)
  {
    package.id + " " + VersionToString(package.version)
  }
}
