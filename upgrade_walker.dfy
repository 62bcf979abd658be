/**
 * The upgrade walker: for each compatible dependency of a package it looks up the most
 * recent package with that id and classifies the upgrade from the dependency's version
 * specification to that candidate.
 */
module UpgradeWalkers {

  import opened Wrappers
  import opened Versions
  import opened Packages
  import opened PackageUpgrades

  /** The walker's two read-only fields. */
  datatype UpgradeWalker = UpgradeWalker(packageRepository: Repository, targetFramework: Option<FrameworkName>)

  /** The constructor; a null repository is rejected. */
  function NewUpgradeWalker(packageRepository: Option<Repository>, targetFramework: Option<FrameworkName>): (r: Result<UpgradeWalker>)
    ensures packageRepository.None? <==> r == Failure(ArgumentNullException("packageRepository"))
    ensures packageRepository.Some? ==> r.Success?
    ensures r.Success? ==> r.value.packageRepository == packageRepository.value && r.value.targetFramework == targetFramework
  {
    if packageRepository.None? then Failure(ArgumentNullException("packageRepository"))
    else Success(UpgradeWalker(packageRepository.value, targetFramework))
  }

  /**
   * The declared minimum exists and lies strictly below the candidate, so asking for the
   * candidate would raise the minimum; a minimum equal to the candidate does not count.
   */
  predicate IsMinVersionUpgradeable(dependency: PackageDependency, recentPackage: Package)
    ensures IsMinVersionUpgradeable(dependency, recentPackage) ==>
      dependency.versionSpec.minVersion.Some? && dependency.versionSpec.minVersion.value != recentPackage.version
  {
    LessIrreflexive(recentPackage.version);
    dependency.versionSpec.minVersion.Some? && Less(dependency.versionSpec.minVersion.value, recentPackage.version)
  }

  /** The specification is pinned to an inclusive release upper bound. */
  predicate DependsOnReleaseVersion(dependency: PackageDependency)
    ensures DependsOnReleaseVersion(dependency) ==>
      dependency.versionSpec.isMaxInclusive && dependency.versionSpec.maxVersion.Some? &&
      IsReleaseVersion(dependency.versionSpec.maxVersion.value)
  {
    dependency.versionSpec.maxVersion.Some? &&
    dependency.versionSpec.maxVersion.value.specialVersion == "" &&
    dependency.versionSpec.isMaxInclusive
  }

  /** Classifies the upgrade of `dependency` to `recentPackage`; never `Unknown`. */
  function DetectUpgradeAction(dependency: PackageDependency, recentPackage: Package): (action: PackageUpgradeAction)
    ensures action != PackageUpgradeAction.Unknown
    ensures action in {PackageUpgradeAction.None, MinVersion} <==> Satisfies(dependency.versionSpec, recentPackage.version)
  {
    if Satisfies(dependency.versionSpec, recentPackage.version) then
      (if IsMinVersionUpgradeable(dependency, recentPackage) then MinVersion else PackageUpgradeAction.None)
    else
      var fromRelease := DependsOnReleaseVersion(dependency);
      if IsReleaseVersion(recentPackage.version) then
        (if fromRelease then ReleaseToRelease else PrereleaseToRelease)
      else
        (if fromRelease then ReleaseToPrerelease else PrereleaseToPrerelease)
  }

  /** Every compatible dependency of `package` resolves to some package in the repository. */
  predicate CandidatesExist(walker: UpgradeWalker, package: Package, filter: FrameworkFilter) {
    forall dependency :: dependency in filter(package, walker.targetFramework) ==> dependency.id in walker.packageRepository
  }

  /** The upgrade the walker records for one dependency. */
  function UpgradeOf(walker: UpgradeWalker, dependency: PackageDependency): (u: PackageUpgrade)
    requires dependency.id in walker.packageRepository
    ensures u.packageDependency == Some(dependency)
    ensures u.package == Some(walker.packageRepository[dependency.id])
    ensures u.action != PackageUpgradeAction.Unknown
  {
    var recentPackage := walker.packageRepository[dependency.id];
    PackageUpgrade(Some(dependency), DetectUpgradeAction(dependency, recentPackage), Some(recentPackage))
  }

  /** All upgrades of `package`, one per compatible dependency, in declaration order. */
  function PackageUpgradesOf(walker: UpgradeWalker, package: Package, filter: FrameworkFilter): (upgrades: seq<PackageUpgrade>)
    requires CandidatesExist(walker, package, filter)
    ensures |upgrades| == |filter(package, walker.targetFramework)|
  {
    var dependencies := filter(package, walker.targetFramework);
    seq(|dependencies|, i requires 0 <= i < |dependencies| => UpgradeOf(walker, dependencies[i]))
  }

  /** `IdentifyUpgrades`: one lookup and one classification per compatible dependency. */
  method IdentifyUpgrades(walker: UpgradeWalker, package: Package, filter: FrameworkFilter) returns (upgrades: seq<PackageUpgrade>)
    requires CandidatesExist(walker, package, filter)
    ensures |upgrades| == |filter(package, walker.targetFramework)|
    ensures forall i :: 0 <= i < |upgrades| ==>
      var dependency := filter(package, walker.targetFramework)[i];
      var recentPackage := walker.packageRepository[dependency.id];
      upgrades[i] == PackageUpgrade(Some(dependency), DetectUpgradeAction(dependency, recentPackage), Some(recentPackage))
    ensures upgrades == PackageUpgradesOf(walker, package, filter)
  {
    var dependencies := filter(package, walker.targetFramework);
    upgrades := [];
    for i := 0 to |dependencies|
      invariant |upgrades| == i
      invariant forall k :: 0 <= k < i ==> upgrades[k] == UpgradeOf(walker, dependencies[k])
    {
      var dependency := dependencies[i];
      var recentDependencyPackage := FindPackage(walker.packageRepository, dependency.id);
      var upgradeType := DetectUpgradeAction(dependency, recentDependencyPackage.value);
      upgrades := upgrades + [PackageUpgrade(Some(dependency), upgradeType, recentDependencyPackage)];
    }
  }

  /** `GetPackageUpgrades`: rejects a null package, otherwise identifies its upgrades. */
  method GetPackageUpgrades(walker: UpgradeWalker, package: Option<Package>, filter: FrameworkFilter) returns (r: Result<seq<PackageUpgrade>>)
    requires package.Some? ==> CandidatesExist(walker, package.value, filter)
    ensures package.None? ==> r == Failure(ArgumentNullException("package"))
    ensures package.Some? ==> r == Success(PackageUpgradesOf(walker, package.value, filter))
  {
    if package.None? {
      return Failure(ArgumentNullException("package"));
    }
    var upgrades := IdentifyUpgrades(walker, package.value, filter);
    return Success(upgrades);
  }

  // ---- The decision table, case by case ----

  /** A satisfied specification whose candidate is exactly its inclusive minimum needs no upgrade. */
  lemma SatisfiedAtInclusiveMinIsNone(dependency: PackageDependency, recentPackage: Package)
    requires dependency.versionSpec.minVersion == Some(recentPackage.version)
    requires dependency.versionSpec.isMinInclusive
    requires Satisfies(dependency.versionSpec, recentPackage.version)
    ensures DetectUpgradeAction(dependency, recentPackage) == PackageUpgradeAction.None
  {
    LessIrreflexive(recentPackage.version);
  }

  /** A satisfied specification whose minimum lies below the candidate raises the minimum. */
  lemma SatisfiedAboveMinIsMinVersion(dependency: PackageDependency, recentPackage: Package)
    requires dependency.versionSpec.minVersion.Some?
    requires Less(dependency.versionSpec.minVersion.value, recentPackage.version)
    requires Satisfies(dependency.versionSpec, recentPackage.version)
    ensures DetectUpgradeAction(dependency, recentPackage) == MinVersion
  {
  }

  /** A satisfied specification without a minimum needs no upgrade. */
  lemma SatisfiedWithoutMinIsNone(dependency: PackageDependency, recentPackage: Package)
    requires dependency.versionSpec.minVersion.None?
    requires Satisfies(dependency.versionSpec, recentPackage.version)
    ensures DetectUpgradeAction(dependency, recentPackage) == PackageUpgradeAction.None
  {
  }

  /** "Not from release" means: no maximum, an exclusive maximum, or a prerelease maximum. */
  lemma NotFromReleaseCases(dependency: PackageDependency)
    ensures !DependsOnReleaseVersion(dependency) <==>
      dependency.versionSpec.maxVersion.None? ||
      !dependency.versionSpec.isMaxInclusive ||
      IsPrerelease(dependency.versionSpec.maxVersion.value)
  {
  }

  /** An unsatisfied specification from a release: release or prerelease candidate. */
  lemma UnsatisfiedFromRelease(dependency: PackageDependency, recentPackage: Package)
    requires !Satisfies(dependency.versionSpec, recentPackage.version)
    requires DependsOnReleaseVersion(dependency)
    ensures DetectUpgradeAction(dependency, recentPackage) ==
      if IsReleaseVersion(recentPackage.version) then ReleaseToRelease else ReleaseToPrerelease
  {
  }

  /** An unsatisfied specification not from a release: release or prerelease candidate. */
  lemma UnsatisfiedNotFromRelease(dependency: PackageDependency, recentPackage: Package)
    requires !Satisfies(dependency.versionSpec, recentPackage.version)
    requires !DependsOnReleaseVersion(dependency)
    ensures DetectUpgradeAction(dependency, recentPackage) ==
      if IsReleaseVersion(recentPackage.version) then PrereleaseToRelease else PrereleaseToPrerelease
  {
  }

  /** The table is exhaustive and its rows are exclusive: each action holds exactly on its row. */
  lemma DecisionTable(dependency: PackageDependency, recentPackage: Package)
    ensures
      var a := DetectUpgradeAction(dependency, recentPackage);
      var sat := Satisfies(dependency.versionSpec, recentPackage.version);
      var release := IsReleaseVersion(recentPackage.version);
      var spec := dependency.versionSpec;
      var raisesMin := spec.minVersion.Some? && Less(spec.minVersion.value, recentPackage.version);
      var fromRelease := spec.maxVersion.Some? && spec.isMaxInclusive && IsReleaseVersion(spec.maxVersion.value);
      (a == PackageUpgradeAction.None <==> sat && !raisesMin) &&
      (a == MinVersion <==> sat && raisesMin) &&
      (a == ReleaseToRelease <==> !sat && fromRelease && release) &&
      (a == ReleaseToPrerelease <==> !sat && fromRelease && !release) &&
      (a == PrereleaseToRelease <==> !sat && !fromRelease && release) &&
      (a == PrereleaseToPrerelease <==> !sat && !fromRelease && !release) &&
      a != PackageUpgradeAction.Unknown
  {
  }

  /** The walker's output has one upgrade per compatible dependency, in the same order. */
  lemma UpgradesFollowDependencies(walker: UpgradeWalker, package: Package, filter: FrameworkFilter, i: nat)
    requires CandidatesExist(walker, package, filter)
    requires i < |filter(package, walker.targetFramework)|
    ensures PackageUpgradesOf(walker, package, filter)[i].packageDependency == Some(filter(package, walker.targetFramework)[i])
    ensures PackageUpgradesOf(walker, package, filter)[i].package == FindPackage(walker.packageRepository, filter(package, walker.targetFramework)[i].id)
  {
  }
}
