/**
 * What the package upgrade visualizer does to a graph, stated on graph values: node ids,
 * node lookup and creation, styling, link creation and the stroke palette. The
 * visualizer's methods are proved to change the graph exactly as `VisualizeGraph` says;
 * the lemmas here state what that means.
 */
module UpgradeGraph {

  import opened Wrappers
  import opened Versions
  import opened Packages
  import opened PackageUpgrades
  import opened Dgml

  const PrereleaseColor := "Gainsboro"
  const MissingPackageColor := "Red"
  const MissingPackageStrokeThickness := "2"

  /** The stroke of a link, by upgrade action. */
  function GetStroke(action: PackageUpgradeAction): string {
    match action
    case None => "Black"
    case MinVersion => "ForestGreen"
    case ReleaseToRelease => "Goldenrod"
    case PrereleaseToRelease => "DarkOrange"
    case PrereleaseToPrerelease => "OrangeRed"
    case ReleaseToPrerelease => "Firebrick"
    case Unknown => "DarkGray"
  }

  /** The palette is exhaustive and gives every action its own colour. */
  lemma GetStrokeInjective(a: PackageUpgradeAction, b: PackageUpgradeAction)
    requires GetStroke(a) == GetStroke(b)
    ensures a == b
  {
    assert |GetStroke(a)| == |GetStroke(b)|;
    assert GetStroke(a)[0] == GetStroke(b)[0];
  }

  /** No link colour is one of the node colours (the missing-package stroke, the prerelease background). */
  lemma LinkColoursApart(a: PackageUpgradeAction)
    ensures GetStroke(a) != MissingPackageColor && GetStroke(a) != PrereleaseColor
  {
    assert |GetStroke(a)| != |MissingPackageColor|;
    assert |GetStroke(a)| != |PrereleaseColor| || GetStroke(a)[1] != PrereleaseColor[1];
  }

  /** The visualizer dereferences every upgrade's dependency when it labels the link. */
  predicate WellFormed(u: PackageUpgrade) {
    u.packageDependency.Some?
  }

  predicate AllWellFormed(upgrades: seq<PackageUpgrade>) {
    forall u :: u in upgrades ==> WellFormed(u)
  }

  /** The node id of a package: its full name, the package id followed by a space and the version. */
  function PackageNodeId(package: Package): (id: string)
    ensures |id| > |package.id| + 1 && id[..|package.id|] == package.id && id[|package.id|] == ' '
  {
    GetFullName(package)
  }

  /** The node id of an unresolved dependency: its bare id, with no version. */
  function DependencyNodeId(dependency: PackageDependency): (id: string)
    ensures id == dependency.id
  {
    dependency.id
  }

  /** A missing dependency's node never coincides with the node of a package of the same id. */
  lemma MissingNodeApart(package: Package, dependency: PackageDependency)
    requires package.id == dependency.id
    ensures PackageNodeId(package) != DependencyNodeId(dependency)
  {
    assert |PackageNodeId(package)| > |DependencyNodeId(dependency)|;
  }

  /** The node id an upgrade points at: the candidate's full name, or the dependency id when it is missing. */
  function UpgradeNodeId(u: PackageUpgrade): (id: string)
    requires WellFormed(u)
    ensures u.package.Some? ==> id == PackageNodeId(u.package.value)
    ensures u.package.None? ==> id == DependencyNodeId(u.packageDependency.value)
  {
    if u.package.Some? then PackageNodeId(u.package.value) else DependencyNodeId(u.packageDependency.value)
  }

  function Ids(nodes: seq<NodeValue>): (ids: seq<string>)
    ensures |ids| == |nodes|
    ensures forall i :: 0 <= i < |nodes| ==> ids[i] == nodes[i].id
  {
    seq(|nodes|, i requires 0 <= i < |nodes| => nodes[i].id)
  }

  /** The first position of `x` in `ids` (`FirstOrDefault` by id), if any. */
  function IndexOf(ids: seq<string>, x: string): (r: Option<nat>)
    ensures r.Some? ==> r.value < |ids| && ids[r.value] == x && forall j :: 0 <= j < r.value ==> ids[j] != x
    ensures r.None? ==> x !in ids
  {
    if ids == [] then Option.None
    else if ids[0] == x then Some(0)
    else
      var r := IndexOf(ids[1..], x);
      if r.Some? then Some(r.value + 1) else Option.None
  }

  /** A node created for `id`: labelled with its id, otherwise unstyled. */
  function NewNode(id: string): NodeValue {
    NodeValue(id, Some(id), Option.None, Option.None, Option.None)
  }

  /** `EnsureNode` on values: keep the nodes if one has this id, otherwise append a new one. */
  function EnsureNode(nodes: seq<NodeValue>, id: string): (r: seq<NodeValue>)
    ensures |r| == if id in Ids(nodes) then |nodes| else |nodes| + 1
    ensures r[..|nodes|] == nodes
    ensures id !in Ids(nodes) ==> r[|nodes|] == NewNode(id)
  {
    if IndexOf(Ids(nodes), id).Some? then nodes else nodes + [NewNode(id)]
  }

  /** Where `EnsureNode` finds or puts the node for `id`. */
  function NodeIndex(nodes: seq<NodeValue>, id: string): (k: nat)
    ensures k < |EnsureNode(nodes, id)| && EnsureNode(nodes, id)[k].id == id
    ensures IndexOf(Ids(EnsureNode(nodes, id)), id) == Some(k)
  {
    var found := IndexOf(Ids(nodes), id);
    if found.Some? then found.value
    else
      assert Ids(EnsureNode(nodes, id)) == Ids(nodes) + [id];
      |nodes|
  }

  /** `ConfigurePackageNode`: a prerelease package gets the prerelease background. */
  function PackageNodeStyle(node: NodeValue, package: Package): (r: NodeValue)
    ensures r.id == node.id && r.labelText == node.labelText
    ensures r.stroke == node.stroke && r.strokeThickness == node.strokeThickness
    ensures r.background == if IsPrerelease(package.version) then Some(PrereleaseColor) else node.background
  {
    if IsPrerelease(package.version) then node.(background := Some(PrereleaseColor)) else node
  }

  /** `ConfigureDependencyNode`: a missing package gets the missing-package stroke. */
  function DependencyNodeStyle(node: NodeValue, u: PackageUpgrade): (r: NodeValue)
    ensures r.id == node.id && r.labelText == node.labelText && r.background == node.background
    ensures r.stroke == if u.package.None? then Some(MissingPackageColor) else node.stroke
    ensures r.strokeThickness == if u.package.None? then Some(MissingPackageStrokeThickness) else node.strokeThickness
  {
    if u.package.None? then node.(stroke := Some(MissingPackageColor), strokeThickness := Some(MissingPackageStrokeThickness))
    else node
  }

  /** `CreateLink` plus `ConfigureLink` for one upgrade of the package with node id `source`. */
  function LinkOf(source: string, u: PackageUpgrade, specToString: VersionSpec -> string): (link: LinkValue)
    requires WellFormed(u)
    ensures link.source == source && link.target == UpgradeNodeId(u)
    ensures link.labelText == Some(specToString(u.packageDependency.value.versionSpec))
    ensures link.stroke == Some(GetStroke(u.action))
  {
    LinkValue(source, UpgradeNodeId(u), Some(specToString(u.packageDependency.value.versionSpec)), Some(GetStroke(u.action)))
  }

  /** One iteration of the loop over upgrades. */
  function VisitUpgrade(g: GraphValue, source: string, u: PackageUpgrade, specToString: VersionSpec -> string): (r: GraphValue)
    requires WellFormed(u)
    ensures r.nodes.Some? && |NodesOf(r)| >= |NodesOf(g)|
    ensures r.links.Some? && |LinksOf(r)| == |LinksOf(g)| + 1
  {
    var nodes := NodesOf(g);
    var id := UpgradeNodeId(u);
    var ensured := EnsureNode(nodes, id);
    var k := NodeIndex(nodes, id);
    GraphValue(Some(ensured[k := DependencyNodeStyle(ensured[k], u)]), Some(LinksOf(g) + [LinkOf(source, u, specToString)]))
  }

  /** The loop over upgrades, in order. */
  function VisitUpgrades(g: GraphValue, source: string, upgrades: seq<PackageUpgrade>, specToString: VersionSpec -> string): (r: GraphValue)
    requires AllWellFormed(upgrades)
    ensures |NodesOf(r)| >= |NodesOf(g)| && |LinksOf(r)| == |LinksOf(g)| + |upgrades|
    ensures upgrades != [] ==> r.nodes.Some? && r.links.Some?
    decreases |upgrades|
  {
    if upgrades == [] then g
    else
      var n := |upgrades| - 1;
      VisitUpgrade(VisitUpgrades(g, source, upgrades[..n], specToString), source, upgrades[n], specToString)
  }

  /** `EnsurePackageNode` plus `ConfigurePackageNode`: the package's node, found or added, then styled. */
  function PackageStep(g: GraphValue, package: Package): (r: GraphValue)
    ensures r.nodes.Some? && |NodesOf(r)| >= |NodesOf(g)| && r.links == g.links
    ensures |NodesOf(r)| == if PackageNodeId(package) in Ids(NodesOf(g)) then |NodesOf(g)| else |NodesOf(g)| + 1
  {
    var id := PackageNodeId(package);
    var ensured := EnsureNode(NodesOf(g), id);
    var k := NodeIndex(NodesOf(g), id);
    GraphValue(Some(ensured[k := PackageNodeStyle(ensured[k], package)]), g.links)
  }

  /** `Visualize` for a non-null package: its node first, then one node and one link per upgrade. */
  function VisualizeGraph(g: GraphValue, package: Package, upgrades: Option<seq<PackageUpgrade>>, specToString: VersionSpec -> string): (r: GraphValue)
    requires upgrades.Some? ==> AllWellFormed(upgrades.value)
    ensures r.nodes.Some? && |NodesOf(r)| >= |NodesOf(g)|
    ensures upgrades.None? ==> r.links == g.links
    ensures upgrades.Some? ==> |LinksOf(r)| == |LinksOf(g)| + |upgrades.value|
  {
    var withPackage := PackageStep(g, package);
    if upgrades.None? then withPackage else VisitUpgrades(withPackage, PackageNodeId(package), upgrades.value, specToString)
  }

  // ---- Reference definitions the lemmas compare against ----

  /** The node ids the upgrades point at, in upgrade order. */
  function TargetIds(upgrades: seq<PackageUpgrade>): (ids: seq<string>)
    requires AllWellFormed(upgrades)
    ensures |ids| == |upgrades|
  {
    seq(|upgrades|, i requires 0 <= i < |upgrades| => UpgradeNodeId(upgrades[i]))
  }

  /** The ids of the dependencies whose package is missing. */
  function MissingIds(upgrades: seq<PackageUpgrade>): seq<string>
    requires AllWellFormed(upgrades)
  {
    if upgrades == [] then []
    else
      var n := |upgrades| - 1;
      var u := upgrades[n];
      assert u in upgrades;
      MissingIds(upgrades[..n]) + (if u.package.None? then [u.packageDependency.value.id] else [])
  }

  /** One link per upgrade, in upgrade order, all from `source`. */
  function ExpectedLinks(source: string, upgrades: seq<PackageUpgrade>, specToString: VersionSpec -> string): (links: seq<LinkValue>)
    requires AllWellFormed(upgrades)
    ensures |links| == |upgrades|
  {
    seq(|upgrades|, i requires 0 <= i < |upgrades| => LinkOf(source, upgrades[i], specToString))
  }

  function UpgradesOrEmpty(upgrades: Option<seq<PackageUpgrade>>): seq<PackageUpgrade> {
    if upgrades.Some? then upgrades.value else []
  }

  predicate UniqueIds(nodes: seq<NodeValue>) {
    forall i, j :: 0 <= i < j < |nodes| ==> nodes[i].id != nodes[j].id
  }

  /** Every link leaves from and arrives at a node of the graph. */
  predicate NoDanglingLinks(g: GraphValue) {
    forall l :: l in LinksOf(g) ==> l.source in Ids(NodesOf(g)) && l.target in Ids(NodesOf(g))
  }

  /** The invariant a graph keeps while this component builds it. */
  predicate GraphInvariant(g: GraphValue) {
    UniqueIds(NodesOf(g)) && NoDanglingLinks(g)
  }

  // ---- Small facts ----

  lemma TargetIdsPrefix(upgrades: seq<PackageUpgrade>)
    requires AllWellFormed(upgrades) && upgrades != []
    ensures TargetIds(upgrades) == TargetIds(upgrades[..|upgrades| - 1]) + [UpgradeNodeId(upgrades[|upgrades| - 1])]
  {
  }

  lemma ExpectedLinksPrefix(source: string, upgrades: seq<PackageUpgrade>, specToString: VersionSpec -> string)
    requires AllWellFormed(upgrades) && upgrades != []
    ensures ExpectedLinks(source, upgrades, specToString) ==
      ExpectedLinks(source, upgrades[..|upgrades| - 1], specToString) + [LinkOf(source, upgrades[|upgrades| - 1], specToString)]
  {
  }

  /** With unique ids, a node's position is the first position of its id. */
  lemma UniqueIndexOf(nodes: seq<NodeValue>, i: nat)
    requires UniqueIds(nodes) && i < |nodes|
    ensures IndexOf(Ids(nodes), nodes[i].id) == Some(i)
  {
    var r := IndexOf(Ids(nodes), nodes[i].id);
    assert nodes[i].id in Ids(nodes);
  }

  /** The effect of one `EnsureNode` followed by restyling the ensured node, on unique ids. */
  lemma EnsureAndStyle(nodes: seq<NodeValue>, id: string, styled: NodeValue)
    requires UniqueIds(nodes)
    requires styled.id == id
    ensures
      var ensured := EnsureNode(nodes, id);
      var k := NodeIndex(nodes, id);
      var rs := ensured[k := styled];
      UniqueIds(rs) &&
      (forall x :: x in Ids(rs) <==> x in Ids(nodes) || x == id) &&
      (forall i :: 0 <= i < |rs| && i != k ==> rs[i] == (if i < |nodes| then nodes[i] else NewNode(id))) &&
      (k < |nodes| ==> nodes[k].id == id) &&
      (k >= |nodes| ==> k == |nodes| == |rs| - 1) &&
      rs[k].id == id
  {
    var ensured := EnsureNode(nodes, id);
    var k := NodeIndex(nodes, id);
    var rs := ensured[k := styled];
    if id in Ids(nodes) {
      assert |ensured| == |nodes|;
      assert ensured == ensured[..|nodes|] == nodes;
      assert Ids(rs) == Ids(nodes);
    } else {
      assert Ids(rs) == Ids(nodes) + [id];
      forall i | 0 <= i < |nodes| ensures rs[i].id != id {
        assert Ids(nodes)[i] == nodes[i].id;
      }
    }
  }

  lemma AllWellFormedPrefix(upgrades: seq<PackageUpgrade>, n: nat)
    requires AllWellFormed(upgrades) && n <= |upgrades|
    ensures AllWellFormed(upgrades[..n])
  {
    forall v | v in upgrades[..n] ensures WellFormed(v) { assert v in upgrades; }
  }

  /**
   * `rs` extends `ns`: old nodes keep their id, label and background; every appended node
   * is labelled with its id, has no background and has an id from `added`; the ids of `rs`
   * are those of `ns` and `added`, and they are unique.
   */
  ghost predicate GrowsBy(ns: seq<NodeValue>, rs: seq<NodeValue>, added: seq<string>) {
    |ns| <= |rs| && UniqueIds(rs) &&
    (forall i :: 0 <= i < |ns| ==>
      rs[i].id == ns[i].id && rs[i].labelText == ns[i].labelText && rs[i].background == ns[i].background) &&
    (forall i :: |ns| <= i < |rs| ==> rs[i].labelText == Some(rs[i].id) && rs[i].background.None? && rs[i].id in added) &&
    (forall x :: x in Ids(rs) <==> x in Ids(ns) || x in added)
  }

  /** `rs` marks exactly the nodes whose id is in `missing` and keeps every other stroke. */
  ghost predicate MarksMissing(ns: seq<NodeValue>, rs: seq<NodeValue>, missing: seq<string>)
    requires |ns| <= |rs|
  {
    forall i :: 0 <= i < |rs| ==>
      rs[i].stroke ==
        (if rs[i].id in missing then Some(MissingPackageColor) else if i < |ns| then ns[i].stroke else Option.None) &&
      rs[i].strokeThickness ==
        (if rs[i].id in missing then Some(MissingPackageStrokeThickness) else if i < |ns| then ns[i].strokeThickness else Option.None)
  }

  lemma GrowsByRefl(ns: seq<NodeValue>)
    requires UniqueIds(ns)
    ensures GrowsBy(ns, ns, []) && MarksMissing(ns, ns, [])
  {
  }

  lemma GrowsByTrans(a: seq<NodeValue>, b: seq<NodeValue>, c: seq<NodeValue>, s: seq<string>, t: seq<string>)
    requires GrowsBy(a, b, s) && GrowsBy(b, c, t)
    ensures GrowsBy(a, c, s + t)
  {
    forall i | |a| <= i < |c| ensures c[i].id in s + t {
      if i < |b| { assert c[i].id == b[i].id; }
    }
    forall x ensures x in Ids(c) <==> x in Ids(a) || x in s + t {
      assert x in s + t <==> x in s || x in t;
    }
  }

  /** The ids of `b` are the first ids of `c`. */
  ghost predicate IdsPrefix(b: seq<NodeValue>, c: seq<NodeValue>) {
    |b| <= |c| && forall i :: 0 <= i < |b| ==> c[i].id == b[i].id
  }

  lemma MarksMissingTrans(a: seq<NodeValue>, b: seq<NodeValue>, c: seq<NodeValue>, m: seq<string>, n: seq<string>)
    requires |a| <= |b| && IdsPrefix(b, c) && UniqueIds(c)
    requires forall x :: x in m ==> x in Ids(b)
    requires MarksMissing(a, b, m) && MarksMissing(b, c, n)
    ensures MarksMissing(a, c, m + n)
  {
    forall i | 0 <= i < |c|
      ensures c[i].stroke ==
        (if c[i].id in m + n then Some(MissingPackageColor) else if i < |a| then a[i].stroke else Option.None)
      ensures c[i].strokeThickness ==
        (if c[i].id in m + n then Some(MissingPackageStrokeThickness) else if i < |a| then a[i].strokeThickness else Option.None)
    {
      assert c[i].id in m + n <==> c[i].id in m || c[i].id in n;
      if i < |b| {
        assert c[i].id == b[i].id;
      }
    }
  }

  /** Every missing id is a target id. */
  lemma {:induction false} MissingIdsAreTargets(upgrades: seq<PackageUpgrade>)
    requires AllWellFormed(upgrades)
    ensures forall x :: x in MissingIds(upgrades) ==> x in TargetIds(upgrades)
    decreases |upgrades|
  {
    if upgrades != [] {
      var n := |upgrades| - 1;
      AllWellFormedPrefix(upgrades, n);
      MissingIdsAreTargets(upgrades[..n]);
      TargetIdsPrefix(upgrades);
    }
  }

  /** One iteration of the loop over upgrades, on unique ids. */
  lemma VisitUpgradeNodes(g: GraphValue, source: string, u: PackageUpgrade, specToString: VersionSpec -> string)
    requires WellFormed(u)
    requires UniqueIds(NodesOf(g))
    ensures
      var ns, rs := NodesOf(g), NodesOf(VisitUpgrade(g, source, u, specToString));
      GrowsBy(ns, rs, [UpgradeNodeId(u)]) &&
      MarksMissing(ns, rs, if u.package.None? then [u.packageDependency.value.id] else [])
  {
    var ns := NodesOf(g);
    var id := UpgradeNodeId(u);
    var k := NodeIndex(ns, id);
    var ensured := EnsureNode(ns, id);
    var styled := DependencyNodeStyle(ensured[k], u);
    EnsureAndStyle(ns, id, styled);
    var rs := ensured[k := styled];
    forall i | 0 <= i < |rs| && i != k ensures rs[i].id != id && rs[i] == (if i < |ns| then ns[i] else NewNode(id)) {
    }
  }

  /** What the loop over upgrades does to the nodes of a graph with unique ids. */
  lemma {:induction false} VisitUpgradesNodes(g: GraphValue, source: string, upgrades: seq<PackageUpgrade>, specToString: VersionSpec -> string)
    requires AllWellFormed(upgrades)
    requires UniqueIds(NodesOf(g))
    ensures
      var ns, rs := NodesOf(g), NodesOf(VisitUpgrades(g, source, upgrades, specToString));
      GrowsBy(ns, rs, TargetIds(upgrades)) && MarksMissing(ns, rs, MissingIds(upgrades)) &&
      (upgrades != [] ==> VisitUpgrades(g, source, upgrades, specToString).nodes.Some?)
    decreases |upgrades|
  {
    if upgrades == [] {
      GrowsByRefl(NodesOf(g));
      assert TargetIds(upgrades) == [];
    } else {
      var n := |upgrades| - 1;
      var u := upgrades[n];
      var before := upgrades[..n];
      AllWellFormedPrefix(upgrades, n);
      VisitUpgradesNodes(g, source, before, specToString);
      var mid := VisitUpgrades(g, source, before, specToString);
      VisitUpgradeNodes(mid, source, u, specToString);
      TargetIdsPrefix(upgrades);
      assert MissingIds(upgrades) == MissingIds(before) + (if u.package.None? then [u.packageDependency.value.id] else []);
      var ns, ms, rs := NodesOf(g), NodesOf(mid), NodesOf(VisitUpgrade(mid, source, u, specToString));
      GrowsByTrans(ns, ms, rs, TargetIds(before), [UpgradeNodeId(u)]);
      MissingIdsAreTargets(before);
      MarksMissingTrans(ns, ms, rs, MissingIds(before), if u.package.None? then [u.packageDependency.value.id] else []);
    }
  }

  /** `EnsureNode` alone, on unique ids. */
  lemma EnsureNodeGrows(ns: seq<NodeValue>, id: string)
    requires UniqueIds(ns)
    ensures GrowsBy(ns, EnsureNode(ns, id), [id]) && MarksMissing(ns, EnsureNode(ns, id), [])
  {
    var ensured := EnsureNode(ns, id);
    if id in Ids(ns) {
      assert ensured == ensured[..|ns|] == ns;
      GrowsByRefl(ns);
    } else {
      assert ensured == ensured[..|ns|] + [ensured[|ns|]];
      AppendNewNode(ns, id);
    }
  }

  /** Appending the new node for an id not yet present. */
  lemma AppendNewNode(ns: seq<NodeValue>, id: string)
    requires UniqueIds(ns) && id !in Ids(ns)
    ensures GrowsBy(ns, ns + [NewNode(id)], [id]) && MarksMissing(ns, ns + [NewNode(id)], [])
  {
    var rs := ns + [NewNode(id)];
    forall i | 0 <= i < |ns| ensures ns[i].id != id {
      assert Ids(ns)[i] == ns[i].id;
    }
    assert Ids(rs) == Ids(ns) + [id];
  }

  /**
   * `ms` is `ns` after the package step for `id`: old nodes keep id and label, at most the
   * node for `id` is added, and only that node's background changes, to the prerelease colour.
   */
  ghost predicate PackageStepped(ns: seq<NodeValue>, ms: seq<NodeValue>, id: string, prerelease: bool) {
    |ns| <= |ms| && UniqueIds(ms) && IdsPrefix(ns, ms) && MarksMissing(ns, ms, []) &&
    (forall i :: 0 <= i < |ns| ==> ms[i].labelText == ns[i].labelText) &&
    (forall i :: |ns| <= i < |ms| ==> ms[i].labelText == Some(ms[i].id) && ms[i].id == id) &&
    (forall x :: x in Ids(ms) <==> x in Ids(ns) || x == id) &&
    (forall i :: 0 <= i < |ms| ==>
      ms[i].background ==
        (if ms[i].id == id && prerelease then Some(PrereleaseColor) else if i < |ns| then ns[i].background else Option.None))
  }

  /** Restyling the ensured node's background, on node lists alone. */
  lemma RestyleBackground(ns: seq<NodeValue>, ensured: seq<NodeValue>, k: nat, id: string, prerelease: bool)
    requires GrowsBy(ns, ensured, [id]) && MarksMissing(ns, ensured, [])
    requires k < |ensured| && ensured[k].id == id
    ensures
      var ms := ensured[k := if prerelease then ensured[k].(background := Some(PrereleaseColor)) else ensured[k]];
      PackageStepped(ns, ms, id, prerelease)
  {
    var ms := ensured[k := if prerelease then ensured[k].(background := Some(PrereleaseColor)) else ensured[k]];
    assert Ids(ms) == Ids(ensured);
    assert UniqueIds(ms) by {
      forall i, j | 0 <= i < j < |ms| ensures ms[i].id != ms[j].id {
        assert ms[i].id == ensured[i].id && ms[j].id == ensured[j].id;
      }
    }
    forall i | |ns| <= i < |ms| ensures ms[i].id == id {
      assert ensured[i].id in [id];
    }
    forall i | 0 <= i < |ms| ensures ms[i].background ==
      (if ms[i].id == id && prerelease then Some(PrereleaseColor) else if i < |ns| then ns[i].background else Option.None)
    {
      if i != k { assert ensured[i].id != ensured[k].id; }
    }
  }

  /** Ensuring and styling the package node, on unique ids. */
  lemma PackageStepNodes(g: GraphValue, package: Package)
    requires UniqueIds(NodesOf(g))
    ensures PackageStep(g, package).nodes.Some?
    ensures PackageStepped(NodesOf(g), NodesOf(PackageStep(g, package)), PackageNodeId(package), IsPrerelease(package.version))
  {
    var ns := NodesOf(g);
    var id := PackageNodeId(package);
    var ensured := EnsureNode(ns, id);
    var k := NodeIndex(ns, id);
    EnsureNodeGrows(ns, id);
    RestyleBackground(ns, ensured, k, id, IsPrerelease(package.version));
  }

  /**
   * What `Visualize` does to the nodes `ns`, giving `rs`: old nodes keep id and label; new
   * nodes are labelled with their id, which is the package's or a target's; the ids are
   * unique and are the old ones, the package's and the targets'; only the package node's
   * background changes, and only the missing dependencies' nodes are stroked.
   */
  ghost predicate Visualized(ns: seq<NodeValue>, rs: seq<NodeValue>, id: string, prerelease: bool, targets: seq<string>, missing: seq<string>) {
    |ns| <= |rs| && UniqueIds(rs) &&
    (forall i :: 0 <= i < |ns| ==> rs[i].id == ns[i].id && rs[i].labelText == ns[i].labelText) &&
    (forall i :: |ns| <= i < |rs| ==> rs[i].labelText == Some(rs[i].id) && (rs[i].id == id || rs[i].id in targets)) &&
    (forall x :: x in Ids(rs) <==> x in Ids(ns) || x == id || x in targets) &&
    (forall i :: 0 <= i < |rs| ==>
      rs[i].background ==
        (if rs[i].id == id && prerelease then Some(PrereleaseColor) else if i < |ns| then ns[i].background else Option.None)) &&
    MarksMissing(ns, rs, missing)
  }

  /** The package step followed by the loop over upgrades, on node lists alone. */
  lemma ComposeVisualized(ns: seq<NodeValue>, ms: seq<NodeValue>, rs: seq<NodeValue>, id: string, prerelease: bool, targets: seq<string>, missing: seq<string>)
    requires PackageStepped(ns, ms, id, prerelease)
    requires GrowsBy(ms, rs, targets) && MarksMissing(ms, rs, missing)
    ensures Visualized(ns, rs, id, prerelease, targets, missing)
  {
    MarksMissingTrans(ns, ms, rs, [], missing);
    assert [] + missing == missing;
    forall i | |ns| <= i < |rs| ensures rs[i].labelText == Some(rs[i].id) && (rs[i].id == id || rs[i].id in targets) {
      if i < |ms| { assert rs[i].id == ms[i].id; }
    }
    assert id in Ids(ms);
    forall i | |ms| <= i < |rs| ensures rs[i].id != id {
      forall j | 0 <= j < |ms| ensures Ids(ms)[j] != rs[i].id {
        assert rs[j].id == ms[j].id;
      }
    }
    forall i | 0 <= i < |rs| ensures rs[i].background ==
      (if rs[i].id == id && prerelease then Some(PrereleaseColor) else if i < |ns| then ns[i].background else Option.None)
    {
      if i < |ms| { assert rs[i].id == ms[i].id; }
    }
  }

  /** `Visualize`'s effect on the nodes of a graph with unique ids, in full. */
  lemma VisualizeNodes(g: GraphValue, package: Package, upgrades: Option<seq<PackageUpgrade>>, specToString: VersionSpec -> string)
    requires upgrades.Some? ==> AllWellFormed(upgrades.value)
    requires UniqueIds(NodesOf(g))
    ensures VisualizeGraph(g, package, upgrades, specToString).nodes.Some?
    ensures Visualized(NodesOf(g), NodesOf(VisualizeGraph(g, package, upgrades, specToString)), PackageNodeId(package),
      IsPrerelease(package.version), TargetIds(UpgradesOrEmpty(upgrades)), MissingIds(UpgradesOrEmpty(upgrades)))
  {
    var id := PackageNodeId(package);
    var withPackage := PackageStep(g, package);
    var ups := UpgradesOrEmpty(upgrades);
    PackageStepNodes(g, package);
    VisitUpgradesNodes(withPackage, id, ups, specToString);
    assert VisualizeGraph(g, package, upgrades, specToString) == VisitUpgrades(withPackage, id, ups, specToString);
    ComposeVisualized(NodesOf(g), NodesOf(withPackage), NodesOf(VisitUpgrades(withPackage, id, ups, specToString)),
      id, IsPrerelease(package.version), TargetIds(ups), MissingIds(ups));
  }

  /** `Visualize` appends one link per upgrade, in order, and leaves the links untouched without upgrades. */
  lemma {:induction false} VisualizeLinks(g: GraphValue, package: Package, upgrades: Option<seq<PackageUpgrade>>, specToString: VersionSpec -> string)
    requires upgrades.Some? ==> AllWellFormed(upgrades.value)
    ensures
      var r := VisualizeGraph(g, package, upgrades, specToString);
      r.links ==
        if upgrades.None? || upgrades.value == [] then g.links
        else Some(LinksOf(g) + ExpectedLinks(PackageNodeId(package), upgrades.value, specToString))
  {
    if upgrades.Some? {
      var id := PackageNodeId(package);
      var ensured := EnsureNode(NodesOf(g), id);
      var k := NodeIndex(NodesOf(g), id);
      var withPackage := GraphValue(Some(ensured[k := PackageNodeStyle(ensured[k], package)]), g.links);
      VisitUpgradesLinks(withPackage, id, upgrades.value, specToString);
    }
  }

  /** One iteration of the loop appends its link. */
  lemma VisitUpgradeLinks(g: GraphValue, source: string, u: PackageUpgrade, specToString: VersionSpec -> string)
    requires WellFormed(u)
    ensures var r := VisitUpgrade(g, source, u, specToString);
      r.links.Some? && LinksOf(r) == LinksOf(g) + [LinkOf(source, u, specToString)]
  {
  }

  /** One unfolding of the loop over upgrades. */
  lemma VisitUpgradesStep(g: GraphValue, source: string, upgrades: seq<PackageUpgrade>, specToString: VersionSpec -> string)
    requires AllWellFormed(upgrades) && upgrades != []
    ensures AllWellFormed(upgrades[..|upgrades| - 1]) && WellFormed(upgrades[|upgrades| - 1])
    ensures VisitUpgrades(g, source, upgrades, specToString) ==
      VisitUpgrade(VisitUpgrades(g, source, upgrades[..|upgrades| - 1], specToString), source, upgrades[|upgrades| - 1], specToString)
  {
    AllWellFormedPrefix(upgrades, |upgrades| - 1);
  }

  /** One more upgrade of a prefix: the loop over `upgrades[..i + 1]` is one visit after the loop over `upgrades[..i]`. */
  lemma VisitUpgradesPrefixStep(g: GraphValue, source: string, upgrades: seq<PackageUpgrade>, specToString: VersionSpec -> string, i: nat)
    requires AllWellFormed(upgrades) && i < |upgrades|
    ensures WellFormed(upgrades[i]) && AllWellFormed(upgrades[..i]) && AllWellFormed(upgrades[..i + 1])
    ensures VisitUpgrades(g, source, upgrades[..i + 1], specToString) ==
      VisitUpgrade(VisitUpgrades(g, source, upgrades[..i], specToString), source, upgrades[i], specToString)
  {
    assert upgrades[i] in upgrades;
    AllWellFormedPrefix(upgrades, i + 1);
    assert upgrades[..i + 1][..i] == upgrades[..i];
    VisitUpgradesStep(g, source, upgrades[..i + 1], specToString);
  }

  /** The loop over upgrades appends their expected links, in order; without upgrades it changes nothing. */
  lemma {:induction false} VisitUpgradesLinks(g: GraphValue, source: string, upgrades: seq<PackageUpgrade>, specToString: VersionSpec -> string)
    requires AllWellFormed(upgrades)
    ensures var r := VisitUpgrades(g, source, upgrades, specToString);
      LinksOf(r) == LinksOf(g) + ExpectedLinks(source, upgrades, specToString) &&
      (upgrades == [] ==> r == g) && (upgrades != [] ==> r.links.Some?)
    decreases |upgrades|
  {
    if upgrades != [] {
      var n := |upgrades| - 1;
      var before := upgrades[..n];
      VisitUpgradesStep(g, source, upgrades, specToString);
      var mid := VisitUpgrades(g, source, before, specToString);
      VisitUpgradesLinks(g, source, before, specToString);
      VisitUpgradeLinks(mid, source, upgrades[n], specToString);
      ExpectedLinksPrefix(source, upgrades, specToString);
      AppendAssoc(LinksOf(g), ExpectedLinks(source, before, specToString), [LinkOf(source, upgrades[n], specToString)]);
    }
  }

  /** Regrouping a concatenation of links, kept apart so the solver sees it without the graph functions. */
  lemma AppendAssoc(a: seq<LinkValue>, b: seq<LinkValue>, c: seq<LinkValue>)
    ensures a + b + c == a + (b + c)
  {
  }

  /** `VisualizeLinks` with an absent link array read as empty. */
  lemma VisualizeLinksOf(g: GraphValue, package: Package, upgrades: Option<seq<PackageUpgrade>>, specToString: VersionSpec -> string)
    requires upgrades.Some? ==> AllWellFormed(upgrades.value)
    ensures LinksOf(VisualizeGraph(g, package, upgrades, specToString)) ==
      LinksOf(g) + ExpectedLinks(PackageNodeId(package), UpgradesOrEmpty(upgrades), specToString)
  {
    VisualizeLinks(g, package, upgrades, specToString);
    if upgrades.None? || upgrades.value == [] {
      assert ExpectedLinks(PackageNodeId(package), UpgradesOrEmpty(upgrades), specToString) == [];
    }
  }

  /** Without upgrades, a package whose node is new adds that one node, labelled with its full name, and no link. */
  lemma VisualizePackageOnly(g: GraphValue, package: Package, upgrades: Option<seq<PackageUpgrade>>, specToString: VersionSpec -> string)
    requires upgrades.None? || upgrades.value == []
    requires PackageNodeId(package) !in Ids(NodesOf(g))
    ensures
      var r := VisualizeGraph(g, package, upgrades, specToString);
      var ns, rs := NodesOf(g), NodesOf(r);
      Ids(rs) == Ids(ns) + [PackageNodeId(package)] &&
      rs[..|ns|] == ns && rs[|ns|].labelText == Some(PackageNodeId(package)) &&
      r.links == g.links
  {
    var ns := NodesOf(g);
    var id := PackageNodeId(package);
    assert NodeIndex(ns, id) == |ns|;
    assert EnsureNode(ns, id) == ns + [NewNode(id)];
  }

  /** `Visualize` keeps ids unique and every link attached to existing nodes. */
  lemma VisualizeKeepsInvariant(g: GraphValue, package: Package, upgrades: Option<seq<PackageUpgrade>>, specToString: VersionSpec -> string)
    requires upgrades.Some? ==> AllWellFormed(upgrades.value)
    requires GraphInvariant(g)
    ensures GraphInvariant(VisualizeGraph(g, package, upgrades, specToString))
  {
    var r := VisualizeGraph(g, package, upgrades, specToString);
    var id := PackageNodeId(package);
    var ups := UpgradesOrEmpty(upgrades);
    VisualizeNodes(g, package, upgrades, specToString);
    VisualizeLinksOf(g, package, upgrades, specToString);
    ExpectedLinksEnds(id, ups, specToString);
    LinksStayAttached(Ids(NodesOf(g)), Ids(NodesOf(r)), LinksOf(g), ExpectedLinks(id, ups, specToString), id, TargetIds(ups));
  }

  /** Every expected link leaves `source` and arrives at its upgrade's target. */
  lemma ExpectedLinksEnds(source: string, upgrades: seq<PackageUpgrade>, specToString: VersionSpec -> string)
    requires AllWellFormed(upgrades)
    ensures forall l :: l in ExpectedLinks(source, upgrades, specToString) ==> l.source == source && l.target in TargetIds(upgrades)
  {
    var links := ExpectedLinks(source, upgrades, specToString);
    forall l | l in links ensures l.source == source && l.target in TargetIds(upgrades) {
      var j :| 0 <= j < |links| && links[j] == l;
      assert l.target == TargetIds(upgrades)[j];
    }
  }

  /** Links between old nodes, plus links from `id` to targets, all end at nodes of the grown graph. */
  lemma LinksStayAttached(oldIds: seq<string>, newIds: seq<string>, oldLinks: seq<LinkValue>, added: seq<LinkValue>, id: string, targets: seq<string>)
    requires forall l :: l in oldLinks ==> l.source in oldIds && l.target in oldIds
    requires forall l :: l in added ==> l.source == id && l.target in targets
    requires forall x :: x in newIds <==> x in oldIds || x == id || x in targets
    ensures forall l :: l in oldLinks + added ==> l.source in newIds && l.target in newIds
  {
  }

  /** The graph grows by appending: the old node ids and the old links stay as a prefix. */
  lemma VisualizeAppends(g: GraphValue, package: Package, upgrades: Option<seq<PackageUpgrade>>, specToString: VersionSpec -> string)
    requires upgrades.Some? ==> AllWellFormed(upgrades.value)
    requires UniqueIds(NodesOf(g))
    ensures
      var r := VisualizeGraph(g, package, upgrades, specToString);
      |NodesOf(g)| <= |NodesOf(r)| && Ids(NodesOf(g)) == Ids(NodesOf(r))[..|NodesOf(g)|] &&
      |LinksOf(g)| <= |LinksOf(r)| && LinksOf(g) == LinksOf(r)[..|LinksOf(g)|]
  {
    VisualizeNodes(g, package, upgrades, specToString);
    VisualizeLinks(g, package, upgrades, specToString);
  }

  /** `Visualize`'s effect on the node ids alone. */
  lemma VisualizeIds(g: GraphValue, package: Package, upgrades: Option<seq<PackageUpgrade>>, specToString: VersionSpec -> string)
    requires upgrades.Some? ==> AllWellFormed(upgrades.value)
    requires UniqueIds(NodesOf(g))
    ensures
      var ns, rs := NodesOf(g), NodesOf(VisualizeGraph(g, package, upgrades, specToString));
      IdsPrefix(ns, rs) && UniqueIds(rs) &&
      forall x :: x in Ids(rs) <==> x in Ids(ns) || x == PackageNodeId(package) || x in TargetIds(UpgradesOrEmpty(upgrades))
  {
    VisualizeNodes(g, package, upgrades, specToString);
  }

  /** Growing a node list by ids it already has adds no node. */
  lemma NoNewIds(a: seq<NodeValue>, b: seq<NodeValue>)
    requires IdsPrefix(a, b) && UniqueIds(b)
    requires forall x :: x in Ids(b) ==> x in Ids(a)
    ensures Ids(b) == Ids(a)
  {
    forall i | |a| <= i < |b| ensures b[i].id !in Ids(a) && b[i].id in Ids(b) {
      assert Ids(b)[i] == b[i].id;
      forall j | 0 <= j < |a| ensures Ids(a)[j] != b[i].id {
        assert b[j].id == a[j].id;
      }
    }
    assert |b| <= |a| || b[|a|].id !in Ids(a);
    assert |b| == |a|;
  }

  /** When the package's node and every upgrade's node already exist, no node is added; the links still are. */
  lemma VisualizeKnownIds(g: GraphValue, package: Package, upgrades: Option<seq<PackageUpgrade>>, specToString: VersionSpec -> string)
    requires upgrades.Some? ==> AllWellFormed(upgrades.value)
    requires UniqueIds(NodesOf(g))
    requires PackageNodeId(package) in Ids(NodesOf(g))
    requires forall x :: x in TargetIds(UpgradesOrEmpty(upgrades)) ==> x in Ids(NodesOf(g))
    ensures
      var r := VisualizeGraph(g, package, upgrades, specToString);
      Ids(NodesOf(r)) == Ids(NodesOf(g)) &&
      |LinksOf(r)| == |LinksOf(g)| + |UpgradesOrEmpty(upgrades)|
  {
    VisualizeIds(g, package, upgrades, specToString);
    VisualizeLinksOf(g, package, upgrades, specToString);
    NoNewIds(NodesOf(g), NodesOf(VisualizeGraph(g, package, upgrades, specToString)));
  }

  /** Visualizing the same package and upgrades twice adds no node but adds the links again. */
  lemma VisualizeTwice(g: GraphValue, package: Package, upgrades: Option<seq<PackageUpgrade>>, specToString: VersionSpec -> string)
    requires upgrades.Some? ==> AllWellFormed(upgrades.value)
    requires UniqueIds(NodesOf(g))
    ensures
      var once := VisualizeGraph(g, package, upgrades, specToString);
      var twice := VisualizeGraph(once, package, upgrades, specToString);
      Ids(NodesOf(twice)) == Ids(NodesOf(once)) &&
      LinksOf(twice) == LinksOf(once) + ExpectedLinks(PackageNodeId(package), UpgradesOrEmpty(upgrades), specToString)
  {
    var once := VisualizeGraph(g, package, upgrades, specToString);
    VisualizeIds(g, package, upgrades, specToString);
    VisualizeIds(once, package, upgrades, specToString);
    VisualizeLinks(once, package, upgrades, specToString);
    NoNewIds(NodesOf(once), NodesOf(VisualizeGraph(once, package, upgrades, specToString)));
    if upgrades.Some? && upgrades.value == [] {
      assert ExpectedLinks(PackageNodeId(package), [], specToString) == [];
    }
  }

  /** A prerelease package node gets the prerelease background; a release node keeps the one it had. */
  lemma PackageNodeBackground(g: GraphValue, package: Package, upgrades: Option<seq<PackageUpgrade>>, specToString: VersionSpec -> string)
    requires upgrades.Some? ==> AllWellFormed(upgrades.value)
    requires UniqueIds(NodesOf(g))
    ensures
      var rs := NodesOf(VisualizeGraph(g, package, upgrades, specToString));
      var k := IndexOf(Ids(rs), PackageNodeId(package));
      k.Some? &&
      (IsPrerelease(package.version) ==> rs[k.value].background == Some(PrereleaseColor)) &&
      (IsReleaseVersion(package.version) ==>
        rs[k.value].background == if k.value < |NodesOf(g)| then NodesOf(g)[k.value].background else Option.None)
  {
    VisualizeNodes(g, package, upgrades, specToString);
    var rs := NodesOf(VisualizeGraph(g, package, upgrades, specToString));
    assert PackageNodeId(package) in Ids(rs);
  }

  /** A newly created package node has the package's full name as id and as label. */
  lemma NewPackageNodeLabel(g: GraphValue, package: Package, upgrades: Option<seq<PackageUpgrade>>, specToString: VersionSpec -> string)
    requires upgrades.Some? ==> AllWellFormed(upgrades.value)
    requires UniqueIds(NodesOf(g))
    requires PackageNodeId(package) !in Ids(NodesOf(g))
    ensures
      var rs := NodesOf(VisualizeGraph(g, package, upgrades, specToString));
      |rs| > |NodesOf(g)| &&
      rs[|NodesOf(g)|].id == GetFullName(package) && rs[|NodesOf(g)|].labelText == Some(GetFullName(package))
  {
    var ns := NodesOf(g);
    var id := PackageNodeId(package);
    var withPackage := PackageStep(g, package);
    var ms := NodesOf(withPackage);
    PackageStepNodes(g, package);
    PackageStepAppends(ns, ms, id, IsPrerelease(package.version));
    var ups := UpgradesOrEmpty(upgrades);
    VisitUpgradesNodes(withPackage, id, ups, specToString);
    assert VisualizeGraph(g, package, upgrades, specToString) == VisitUpgrades(withPackage, id, ups, specToString);
  }

  /** After the package step for an id that was absent, the node right after the old ones is that id's new node. */
  lemma PackageStepAppends(ns: seq<NodeValue>, ms: seq<NodeValue>, id: string, prerelease: bool)
    requires PackageStepped(ns, ms, id, prerelease) && id !in Ids(ns)
    ensures |ms| > |ns| && ms[|ns|].id == id && ms[|ns|].labelText == Some(id)
  {
    assert id in Ids(ms);
    var i :| 0 <= i < |ms| && Ids(ms)[i] == id;
    forall k | 0 <= k < |ns|
      ensures Ids(ms)[k] != id
    {
      assert Ids(ms)[k] == Ids(ns)[k];
      assert Ids(ns)[k] in Ids(ns);
    }
  }

  /** A dependency without a package is among the missing ids. */
  lemma {:induction false} MissingIdsCover(upgrades: seq<PackageUpgrade>, j: nat)
    requires AllWellFormed(upgrades) && j < |upgrades| && upgrades[j].package.None?
    ensures WellFormed(upgrades[j]) && upgrades[j].packageDependency.value.id in MissingIds(upgrades)
    decreases |upgrades|
  {
    assert upgrades[j] in upgrades;
    var n := |upgrades| - 1;
    if j < n {
      AllWellFormedPrefix(upgrades, n);
      assert upgrades[..n][j] == upgrades[j];
      MissingIdsCover(upgrades[..n], j);
    }
  }

  /** The node of an upgrade whose package is missing has the missing-package stroke and thickness. */
  lemma MissingDependencyMarked(g: GraphValue, package: Package, upgrades: Option<seq<PackageUpgrade>>, specToString: VersionSpec -> string, j: nat)
    requires upgrades.Some? && AllWellFormed(upgrades.value)
    requires UniqueIds(NodesOf(g))
    requires j < |upgrades.value| && upgrades.value[j].packageDependency.Some? && upgrades.value[j].package.None?
    ensures
      var rs := NodesOf(VisualizeGraph(g, package, upgrades, specToString));
      var k := IndexOf(Ids(rs), upgrades.value[j].packageDependency.value.id);
      k.Some? && rs[k.value].stroke == Some(MissingPackageColor) && rs[k.value].strokeThickness == Some(MissingPackageStrokeThickness)
  {
    var ups := upgrades.value;
    var id := ups[j].packageDependency.value.id;
    VisualizeNodes(g, package, upgrades, specToString);
    MissingIdsCover(ups, j);
    assert id in TargetIds(ups) by {
      assert TargetIds(ups)[j] == id;
    }
    MarkedNodeFound(NodesOf(g), NodesOf(VisualizeGraph(g, package, upgrades, specToString)),
      PackageNodeId(package), IsPrerelease(package.version), TargetIds(ups), MissingIds(ups), id);
  }

  /** In a visualized node list, a missing target id has a node, and that node is marked. */
  lemma MarkedNodeFound(ns: seq<NodeValue>, rs: seq<NodeValue>, source: string, prerelease: bool,
    targets: seq<string>, missing: seq<string>, id: string)
    requires Visualized(ns, rs, source, prerelease, targets, missing) && id in targets && id in missing
    ensures
      var k := IndexOf(Ids(rs), id);
      k.Some? && rs[k.value].stroke == Some(MissingPackageColor) && rs[k.value].strokeThickness == Some(MissingPackageStrokeThickness)
  {
    assert id in Ids(rs);
    var k := IndexOf(Ids(rs), id);
    assert rs[k.value].id == id;
  }

  /**
   * The link `Visualize` appends for the `j`-th upgrade: from the package node to the
   * upgrade's node, labelled with the version specification and coloured by the action.
   */
  lemma VisualizeLinkAt(g: GraphValue, package: Package, upgrades: Option<seq<PackageUpgrade>>, specToString: VersionSpec -> string, j: nat)
    requires upgrades.Some? && AllWellFormed(upgrades.value) && j < |upgrades.value|
    ensures
      var u := upgrades.value[j];
      var links := LinksOf(VisualizeGraph(g, package, upgrades, specToString));
      u.packageDependency.Some? &&
      |links| == |LinksOf(g)| + |upgrades.value| &&
      links[|LinksOf(g)| + j] ==
        LinkValue(PackageNodeId(package), UpgradeNodeId(u), Some(specToString(u.packageDependency.value.versionSpec)), Some(GetStroke(u.action)))
  {
    assert upgrades.value[j] in upgrades.value;
    VisualizeLinksOf(g, package, upgrades, specToString);
    var e := ExpectedLinks(PackageNodeId(package), upgrades.value, specToString);
    assert (LinksOf(g) + e)[|LinksOf(g)| + j] == e[j];
  }
}
