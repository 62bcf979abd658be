/**
 * The batch driver: it checks its arguments, builds the palette, creates one graph and, for
 * each package in input order, walks its upgrades and visualizes them into that graph.
 */
module UpgradeableDependencies {

  import opened Wrappers
  import opened Versions
  import opened Packages
  import opened PackageUpgrades
  import opened UpgradeWalkers
  import opened Dgml
  import opened UpgradeGraph
  import opened Visualizer

  /** The colours the driver configures: one per action, plus the two node colours. */
  datatype PackageUpgradePalette = PackageUpgradePalette(
    actionPalette: map<PackageUpgradeAction, string>, missingPackageColor: string, prereleaseColor: string)

  /** The action palette, filled in one action at a time. */
  method BuildActionPalette() returns (palette: map<PackageUpgradeAction, string>)
    ensures forall a: PackageUpgradeAction :: a in palette && palette[a] == GetStroke(a)
  {
    palette := map[];
    palette := palette[PackageUpgradeAction.None := "Black"];
    palette := palette[MinVersion := "ForestGreen"];
    palette := palette[ReleaseToRelease := "Goldenrod"];
    palette := palette[PrereleaseToRelease := "DarkOrange"];
    palette := palette[PrereleaseToPrerelease := "OrangeRed"];
    palette := palette[ReleaseToPrerelease := "Firebrick"];
    palette := palette[Unknown := "DarkGray"];
    forall a: PackageUpgradeAction ensures a in palette && palette[a] == GetStroke(a) {
      match a
      case None =>
      case MinVersion =>
      case ReleaseToRelease =>
      case PrereleaseToRelease =>
      case PrereleaseToPrerelease =>
      case ReleaseToPrerelease =>
      case Unknown =>
    }
  }

  /** The whole palette: the action colours and the missing-package and prerelease colours. */
  method BuildPalette() returns (palette: PackageUpgradePalette)
    ensures forall a: PackageUpgradeAction :: a in palette.actionPalette && palette.actionPalette[a] == GetStroke(a)
    ensures palette.missingPackageColor == MissingPackageColor == "Red"
    ensures palette.prereleaseColor == PrereleaseColor == "Gainsboro"
  {
    var actionPalette := BuildActionPalette();
    palette := PackageUpgradePalette(actionPalette, "Red", "Gainsboro");
  }

  /** Every package has a candidate for each of its compatible dependencies. */
  predicate AllCandidatesExist(walker: UpgradeWalker, packages: seq<Package>, filter: FrameworkFilter) {
    forall p :: p in packages ==> CandidatesExist(walker, p, filter)
  }

  /** The walker's upgrades always carry their dependency. */
  lemma PackageUpgradesWellFormed(walker: UpgradeWalker, package: Package, filter: FrameworkFilter)
    requires CandidatesExist(walker, package, filter)
    ensures AllWellFormed(PackageUpgradesOf(walker, package, filter))
  {
    var upgrades := PackageUpgradesOf(walker, package, filter);
    forall u | u in upgrades ensures WellFormed(u) {
      var i :| 0 <= i < |upgrades| && upgrades[i] == u;
      UpgradesFollowDependencies(walker, package, filter, i);
    }
  }

  /** The upgrades of `package` as the visualizer receives them. */
  function UpgradesFor(walker: UpgradeWalker, package: Package, filter: FrameworkFilter): (upgrades: Option<seq<PackageUpgrade>>)
    requires CandidatesExist(walker, package, filter)
    ensures upgrades.Some? && AllWellFormed(upgrades.value)
  {
    PackageUpgradesWellFormed(walker, package, filter);
    Some(PackageUpgradesOf(walker, package, filter))
  }

  /** The driver's loop on values: each package, in order, walked and visualized into `g`. */
  function VisualizeAll(g: GraphValue, walker: UpgradeWalker, packages: seq<Package>, filter: FrameworkFilter, specToString: VersionSpec -> string): GraphValue
    requires AllCandidatesExist(walker, packages, filter)
    decreases |packages|
  {
    if packages == [] then g
    else
      var n := |packages| - 1;
      var p := packages[n];
      assert p in packages;
      VisualizeGraph(VisualizeAll(g, walker, packages[..n], filter, specToString), p, UpgradesFor(walker, p, filter), specToString)
  }

  /**
   * Rejects a null package list, then a null repository; otherwise returns a new graph
   * holding every package's node and its upgrades.
   */
  method VisualizeUpgradeableDependencies(
    packages: Option<seq<Package>>, packageRepository: Option<Repository>, targetFramework: Option<FrameworkName>,
    filter: FrameworkFilter, specToString: VersionSpec -> string)
    returns (r: Result<DirectedGraph>)
    requires packages.Some? && packageRepository.Some? ==>
      AllCandidatesExist(UpgradeWalker(packageRepository.value, targetFramework), packages.value, filter)
    ensures packages.None? ==> r == Failure(ArgumentNullException("packages"))
    ensures packages.Some? && packageRepository.None? ==> r == Failure(ArgumentNullException("packageRepository"))
    ensures packages.Some? && packageRepository.Some? ==>
      r.Success? && fresh(r.value) && r.value.Valid() &&
      r.value.Model() ==
        VisualizeAll(GraphValue(Option.None, Option.None), UpgradeWalker(packageRepository.value, targetFramework), packages.value, filter, specToString)
  {
    if packages.None? {
      return Failure(ArgumentNullException("packages"));
    }
    if packageRepository.None? {
      return Failure(ArgumentNullException("packageRepository"));
    }
    var created := NewUpgradeWalker(packageRepository, targetFramework);
    var walker := created.value;
    var directedGraph := new DirectedGraph();
    // The palette is handed to a visualizer constructor that the visualizer does not declare;
    // the visualizer uses its own constants, which are exactly this palette's colours.
    var palette := BuildPalette();
    assert palette.missingPackageColor == MissingPackageColor && palette.prereleaseColor == PrereleaseColor;
    assert forall a: PackageUpgradeAction :: palette.actionPalette[a] == GetStroke(a);
    var constructed := NewPackageUpgradeVisualizer(directedGraph);
    var visualizer := constructed.value;
    var ps := packages.value;
    for i := 0 to |ps|
      invariant directedGraph.Valid() && fresh(directedGraph)
      invariant forall n :: n in directedGraph.NodeObjects() ==> fresh(n)
      invariant directedGraph.Model() == VisualizeAll(GraphValue(Option.None, Option.None), walker, ps[..i], filter, specToString)
    {
      assert ps[i] in ps;
      VisualizePackage(visualizer, walker, ps[i], filter, specToString);
      VisualizeAllStep(GraphValue(Option.None, Option.None), walker, ps, filter, specToString, i);
    }
    assert ps[..|ps|] == ps;
    return Success(directedGraph);
  }

  /** The driver's loop body: the package's upgrades, then their visualization. */
  method VisualizePackage(visualizer: PackageUpgradeVisualizer, walker: UpgradeWalker, package: Package, filter: FrameworkFilter, specToString: VersionSpec -> string)
    requires visualizer.directedGraph.Valid() && CandidatesExist(walker, package, filter)
    modifies visualizer.directedGraph, visualizer.directedGraph.NodeObjects()
    ensures visualizer.directedGraph.Valid()
    ensures forall n :: n in visualizer.directedGraph.NodeObjects() ==> n in old(visualizer.directedGraph.NodeObjects()) || fresh(n)
    ensures visualizer.directedGraph.Model() ==
      VisualizeGraph(old(visualizer.directedGraph.Model()), package, UpgradesFor(walker, package, filter), specToString)
  {
    var upgrades := GetPackageUpgrades(walker, Some(package), filter);
    assert Some(upgrades.value) == UpgradesFor(walker, package, filter);
    var outcome := visualizer.Visualize(Some(package), Some(upgrades.value), specToString);
  }

  // ---- Properties of the driver's loop ----

  /** One more package on the prefix visualizes that package into the prefix's graph. */
  lemma VisualizeAllStep(g: GraphValue, walker: UpgradeWalker, packages: seq<Package>, filter: FrameworkFilter, specToString: VersionSpec -> string, i: nat)
    requires AllCandidatesExist(walker, packages, filter) && i < |packages|
    ensures AllCandidatesExist(walker, packages[..i], filter) && packages[i] in packages
    ensures VisualizeAll(g, walker, packages[..i + 1], filter, specToString) ==
      VisualizeGraph(VisualizeAll(g, walker, packages[..i], filter, specToString), packages[i], UpgradesFor(walker, packages[i], filter), specToString)
  {
    assert packages[..i + 1][..i] == packages[..i];
    assert packages[..i + 1][i] == packages[i];
  }

  /** The graph invariant holds after every package. */
  lemma {:induction false} VisualizeAllKeepsInvariant(g: GraphValue, walker: UpgradeWalker, packages: seq<Package>, filter: FrameworkFilter, specToString: VersionSpec -> string)
    requires AllCandidatesExist(walker, packages, filter)
    requires GraphInvariant(g)
    ensures GraphInvariant(VisualizeAll(g, walker, packages, filter, specToString))
    decreases |packages|
  {
    if packages != [] {
      var n := |packages| - 1;
      var p := packages[n];
      assert p in packages;
      VisualizeAllKeepsInvariant(g, walker, packages[..n], filter, specToString);
      VisualizeKeepsInvariant(VisualizeAll(g, walker, packages[..n], filter, specToString), p, UpgradesFor(walker, p, filter), specToString);
    }
  }

  /** The links expected from a list of packages: each package's links, in package order. */
  function AllExpectedLinks(walker: UpgradeWalker, packages: seq<Package>, filter: FrameworkFilter, specToString: VersionSpec -> string): seq<LinkValue>
    requires AllCandidatesExist(walker, packages, filter)
    decreases |packages|
  {
    if packages == [] then []
    else
      var n := |packages| - 1;
      var p := packages[n];
      assert p in packages;
      AllExpectedLinks(walker, packages[..n], filter, specToString) +
        ExpectedLinks(PackageNodeId(p), UpgradesFor(walker, p, filter).value, specToString)
  }

  /** The shared graph collects every package's links, in input order. */
  lemma {:induction false} VisualizeAllLinks(g: GraphValue, walker: UpgradeWalker, packages: seq<Package>, filter: FrameworkFilter, specToString: VersionSpec -> string)
    requires AllCandidatesExist(walker, packages, filter)
    ensures LinksOf(VisualizeAll(g, walker, packages, filter, specToString)) ==
      LinksOf(g) + AllExpectedLinks(walker, packages, filter, specToString)
    decreases |packages|
  {
    if packages != [] {
      var n := |packages| - 1;
      var p := packages[n];
      assert p in packages;
      var mid := VisualizeAll(g, walker, packages[..n], filter, specToString);
      var ups := UpgradesFor(walker, p, filter);
      var before := AllExpectedLinks(walker, packages[..n], filter, specToString);
      var added := ExpectedLinks(PackageNodeId(p), ups.value, specToString);
      calc {
        LinksOf(VisualizeAll(g, walker, packages, filter, specToString));
        LinksOf(VisualizeGraph(mid, p, ups, specToString));
        { VisualizeLinksOf(mid, p, ups, specToString); }
        LinksOf(mid) + added;
        { VisualizeAllLinks(g, walker, packages[..n], filter, specToString); }
        LinksOf(g) + before + added;
        LinksOf(g) + (before + added);
        LinksOf(g) + AllExpectedLinks(walker, packages, filter, specToString);
      }
    }
  }

  /** No package has a compatible dependency. */
  predicate NoDependencies(walker: UpgradeWalker, packages: seq<Package>, filter: FrameworkFilter) {
    forall p :: p in packages ==> filter(p, walker.targetFramework) == []
  }

  /** The full names of all packages, in input order. */
  function FullNames(packages: seq<Package>): (names: seq<string>)
    ensures |names| == |packages|
  {
    seq(|packages|, i requires 0 <= i < |packages| => GetFullName(packages[i]))
  }

  /**
   * Packages without dependencies and with distinct full names give one node each, in input
   * order, labelled with the full name, and the link array stays null.
   */
  lemma {:induction false} PackagesWithoutDependencies(walker: UpgradeWalker, packages: seq<Package>, filter: FrameworkFilter, specToString: VersionSpec -> string)
    requires NoDependencies(walker, packages, filter)
    requires DistinctFullNames(packages)
    ensures AllCandidatesExist(walker, packages, filter)
    ensures
      var r := VisualizeAll(GraphValue(Option.None, Option.None), walker, packages, filter, specToString);
      Ids(NodesOf(r)) == FullNames(packages) && SelfLabelled(NodesOf(r)) && r.links.None?
    decreases |packages|
  {
    assert AllCandidatesExist(walker, packages, filter);
    if packages != [] {
      var n := |packages| - 1;
      var p, prefix := packages[n], packages[..n];
      assert p in packages;
      assert NoDependencies(walker, prefix, filter);
      var g := GraphValue(Option.None, Option.None);
      FullNamesStep(packages);
      PackagesWithoutDependencies(walker, prefix, filter, specToString);
      var mid := VisualizeAll(g, walker, prefix, filter, specToString);
      var ups := UpgradesFor(walker, p, filter);
      assert ups.value == [];
      var r := VisualizeGraph(mid, p, ups, specToString);
      assert VisualizeAll(g, walker, packages, filter, specToString) == r by {
        VisualizeAllStep(g, walker, packages, filter, specToString, n);
        assert packages[..n + 1] == packages;
      }
      VisualizePackageOnly(mid, p, ups, specToString);
      SelfLabelledAppend(NodesOf(mid), NodesOf(r));
    }
  }

  /** No two packages share a full name. */
  predicate DistinctFullNames(packages: seq<Package>) {
    forall i, j :: 0 <= i < j < |packages| ==> GetFullName(packages[i]) != GetFullName(packages[j])
  }

  /** Every node is labelled with its own id. */
  predicate SelfLabelled(ns: seq<NodeValue>) {
    forall i :: 0 <= i < |ns| ==> ns[i].labelText == Some(ns[i].id)
  }

  /** With distinct full names, the last one is not among the others, and the names extend by it. */
  lemma FullNamesStep(packages: seq<Package>)
    requires packages != [] && DistinctFullNames(packages)
    ensures var n := |packages| - 1;
      DistinctFullNames(packages[..n]) &&
      GetFullName(packages[n]) !in FullNames(packages[..n]) &&
      FullNames(packages) == FullNames(packages[..n]) + [GetFullName(packages[n])]
  {
    var n := |packages| - 1;
    var names := FullNames(packages[..n]);
    forall i | 0 <= i < n ensures names[i] != GetFullName(packages[n]) {
      assert names[i] == GetFullName(packages[i]);
    }
  }

  /** Appending one node labelled with its own id keeps every node labelled with its id. */
  lemma SelfLabelledAppend(ns: seq<NodeValue>, rs: seq<NodeValue>)
    requires SelfLabelled(ns)
    requires |rs| == |ns| + 1 && rs[..|ns|] == ns && rs[|ns|].labelText == Some(rs[|ns|].id)
    ensures SelfLabelled(rs)
  {
    forall i | 0 <= i < |rs| ensures rs[i].labelText == Some(rs[i].id) {
      if i < |ns| {
        assert rs[i] == rs[..|ns|][i];
      }
    }
  }

  /**
   * Two packages that each depend on one package resolving to the same candidate: the
   * candidate gets one node, with one incoming link from each package.
   */
  lemma SharedDependency(walker: UpgradeWalker, p1: Package, p2: Package, d1: PackageDependency, d2: PackageDependency,
    filter: FrameworkFilter, specToString: VersionSpec -> string)
    requires filter(p1, walker.targetFramework) == [d1] && filter(p2, walker.targetFramework) == [d2]
    requires d1.id == d2.id && d1.id in walker.packageRepository
    ensures AllCandidatesExist(walker, [p1, p2], filter)
    ensures
      var r := VisualizeAll(GraphValue(Option.None, Option.None), walker, [p1, p2], filter, specToString);
      var target := GetFullName(walker.packageRepository[d1.id]);
      UniqueIds(NodesOf(r)) && target in Ids(NodesOf(r)) &&
      |LinksOf(r)| == 2 &&
      LinksOf(r)[0].source == GetFullName(p1) && LinksOf(r)[1].source == GetFullName(p2) &&
      LinksOf(r)[0].target == target && LinksOf(r)[1].target == target
  {
    var packages := [p1, p2];
    assert AllCandidatesExist(walker, packages, filter);
    var g := GraphValue(Option.None, Option.None);
    var r := VisualizeAll(g, walker, packages, filter, specToString);
    var target := GetFullName(walker.packageRepository[d1.id]);
    var u1, u2 := UpgradesFor(walker, p1, filter).value, UpgradesFor(walker, p2, filter).value;
    var l1, l2 := LinkOf(GetFullName(p1), u1[0], specToString), LinkOf(GetFullName(p2), u2[0], specToString);
    assert l1.target == target && l2.target == target by {
      UpgradesFollowDependencies(walker, p1, filter, 0);
      UpgradesFollowDependencies(walker, p2, filter, 0);
    }
    assert LinksOf(r) == [l1, l2] by {
      TwoExpectedLinks(walker, p1, p2, filter, specToString);
      VisualizeAllLinks(g, walker, packages, filter, specToString);
      assert LinksOf(g) == [];
    }
    assert GraphInvariant(r) by {
      VisualizeAllKeepsInvariant(g, walker, packages, filter, specToString);
    }
    TwoLinksInto(r, l1, l2, GetFullName(p1), GetFullName(p2), target);
  }

  /** A graph that keeps the invariant and holds exactly two links into `target` has `target` as a node. */
  lemma TwoLinksInto(r: GraphValue, l1: LinkValue, l2: LinkValue, s1: string, s2: string, target: string)
    requires GraphInvariant(r) && LinksOf(r) == [l1, l2]
    requires l1.source == s1 && l2.source == s2 && l1.target == target && l2.target == target
    ensures UniqueIds(NodesOf(r)) && target in Ids(NodesOf(r))
    ensures |LinksOf(r)| == 2 && LinksOf(r)[0].source == s1 && LinksOf(r)[1].source == s2
    ensures LinksOf(r)[0].target == target && LinksOf(r)[1].target == target
  {
    assert l1 in LinksOf(r);
  }

  /** Two packages with one dependency each expect one link each, in order. */
  lemma TwoExpectedLinks(walker: UpgradeWalker, p1: Package, p2: Package, filter: FrameworkFilter, specToString: VersionSpec -> string)
    requires |filter(p1, walker.targetFramework)| == 1 && |filter(p2, walker.targetFramework)| == 1
    requires AllCandidatesExist(walker, [p1, p2], filter)
    ensures
      var u1, u2 := UpgradesFor(walker, p1, filter).value, UpgradesFor(walker, p2, filter).value;
      |u1| == 1 && |u2| == 1 &&
      AllExpectedLinks(walker, [p1, p2], filter, specToString) ==
        [LinkOf(GetFullName(p1), u1[0], specToString), LinkOf(GetFullName(p2), u2[0], specToString)]
  {
    var packages := [p1, p2];
    assert p1 in packages && p2 in packages;
    var u1, u2 := UpgradesFor(walker, p1, filter).value, UpgradesFor(walker, p2, filter).value;
    var l1, l2 := LinkOf(GetFullName(p1), u1[0], specToString), LinkOf(GetFullName(p2), u2[0], specToString);
    assert packages[..1] == [p1] && [p1][..0] == [];
    assert ExpectedLinks(GetFullName(p1), u1, specToString) == [l1];
    assert ExpectedLinks(GetFullName(p2), u2, specToString) == [l2];
    assert AllExpectedLinks(walker, [p1], filter, specToString) == [l1];
  }
}
