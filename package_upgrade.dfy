/** The record passed from the upgrade walker to the visualizer. */
module PackageUpgrades {

  import opened Wrappers
  import opened Packages

  /** Upgrade actions, in order of increasing risk; `Unknown` has no candidate to compare with. */
  datatype PackageUpgradeAction =
    | None
    | MinVersion
    | ReleaseToRelease
    | PrereleaseToRelease
    | PrereleaseToPrerelease
    | ReleaseToPrerelease
    | Unknown

  /**
   * An upgrade of a package dependency. Its properties are get-only, which a datatype
   * value gives for free. The dependency may be null; the package is the candidate the
   * dependency was resolved to, absent when it could not be resolved.
   */
  datatype PackageUpgrade = PackageUpgrade(
    packageDependency: Option<PackageDependency>,
    action: PackageUpgradeAction,
    package: Option<Package>)

  /** The two-argument constructor: stores dependency and action as given, null included. */
  function NewPackageUpgrade(packageDependency: Option<PackageDependency>, action: PackageUpgradeAction): (u: PackageUpgrade)
    ensures u.packageDependency == packageDependency
    ensures u.action == action
    ensures u.package.None?
  {
    PackageUpgrade(packageDependency, action, Option.None)
  }

  /** The name of an action as the enumeration spells it. */
  function ActionName(action: PackageUpgradeAction): (name: string)
    ensures |name| >= 4 && 'A' <= name[0] <= 'Z'
  {
    match action
    case None => "None"
    case MinVersion => "MinVersion"
    case ReleaseToRelease => "ReleaseToRelease"
    case PrereleaseToRelease => "PrereleaseToRelease"
    case PrereleaseToPrerelease => "PrereleaseToPrerelease"
    case ReleaseToPrerelease => "ReleaseToPrerelease"
    case Unknown => "Unknown"
  }

  /** Distinct actions have distinct names. */
  lemma ActionNameInjective(a: PackageUpgradeAction, b: PackageUpgradeAction)
    requires ActionName(a) == ActionName(b)
    ensures a == b
  {
    // Length and first letter already tell the names apart.
    assert |ActionName(a)| == |ActionName(b)|;
    assert ActionName(a)[0] == ActionName(b)[0];
  }

  /** How a dependency is rendered inside `ToString`: a null dependency renders as "". */
  function DependencyText(u: PackageUpgrade, dependencyToString: PackageDependency -> string): string {
    if u.packageDependency.Some? then dependencyToString(u.packageDependency.value) else ""
  }

  /** `ToString`: the dependency, a space, then the action name in parentheses. */
  function ToString(u: PackageUpgrade, dependencyToString: PackageDependency -> string): (s: string)
    ensures |s| == |DependencyText(u, dependencyToString)| + |ActionName(u.action)| + 3
    ensures s[..|DependencyText(u, dependencyToString)|] == DependencyText(u, dependencyToString)
    ensures s[|s| - 1] == ')'
  {
    DependencyText(u, dependencyToString) + " (" + ActionName(u.action) + ")"
  }

  /** Two upgrades whose dependencies render alike render alike exactly when their actions agree. */
  lemma ToStringDeterminesAction(u: PackageUpgrade, v: PackageUpgrade, dependencyToString: PackageDependency -> string)
    requires DependencyText(u, dependencyToString) == DependencyText(v, dependencyToString)
    ensures ToString(u, dependencyToString) == ToString(v, dependencyToString) <==> u.action == v.action
  {
    var d := DependencyText(u, dependencyToString);
    var s, t := ToString(u, dependencyToString), ToString(v, dependencyToString);
    if s == t {
      var n, m := ActionName(u.action), ActionName(v.action);
      assert s == d + " (" + n + ")";
      assert t == d + " (" + m + ")";
      assert |n| == |m|;
      forall i | 0 <= i < |n| ensures n[i] == m[i] {
        assert s[|d| + 2 + i] == n[i];
        assert t[|d| + 2 + i] == m[i];
      }
      assert n == m;
      ActionNameInjective(u.action, v.action);
    }
  }
}
