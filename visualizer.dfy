/**
 * The package-upgrade visualizer: it fills in a directed graph in place, one node per package
 * or missing dependency and one link per upgrade. Every method keeps the graph's ghost views in
 * step with its objects, and `Visualize` is proved against `UpgradeGraph.VisualizeGraph`.
 */
module Visualizer {

  import opened Wrappers
  import opened Versions
  import opened Packages
  import opened PackageUpgrades
  import opened Dgml
  import opened UpgradeGraph

  /** The constructor's null check on the graph. */
  method NewPackageUpgradeVisualizer(directedGraph: DirectedGraph?) returns (r: Result<PackageUpgradeVisualizer>)
    ensures directedGraph == null ==> r == Failure(ArgumentNullException("directedGraph"))
    ensures directedGraph != null ==> r.Success? && fresh(r.value) && r.value.directedGraph == directedGraph
  {
    if directedGraph == null {
      return Failure(ArgumentNullException("directedGraph"));
    }
    var visualizer := new PackageUpgradeVisualizer(directedGraph);
    return Success(visualizer);
  }

  class PackageUpgradeVisualizer {
    const directedGraph: DirectedGraph

    constructor (directedGraph: DirectedGraph)
      ensures this.directedGraph == directedGraph
    {
      this.directedGraph := directedGraph;
    }

    /** Every node object of the graph was there before or is new. */
    twostate predicate OnlyNewNodes()
      reads this, directedGraph
    {
      forall n :: n in directedGraph.NodeObjects() ==> n in old(directedGraph.NodeObjects()) || fresh(n)
    }

    /** The node objects the graph held before are still its first node objects, in order. */
    twostate predicate KeepsNodes()
      reads this, directedGraph
    {
      old(directedGraph.nodes).Some? ==> directedGraph.nodes.Some? && old(directedGraph.nodes.value) <= directedGraph.nodes.value
    }

    /**
     * Adds the package's node (unless a node with its full name exists) and styles it, then
     * one node and one link per upgrade. A null package is refused before anything changes.
     */
    method Visualize(package: Option<Package>, upgrades: Option<seq<PackageUpgrade>>, specToString: VersionSpec -> string)
      returns (outcome: Outcome)
      requires directedGraph.Valid()
      requires upgrades.Some? ==> AllWellFormed(upgrades.value)
      modifies directedGraph, directedGraph.NodeObjects()
      ensures directedGraph.Valid() && OnlyNewNodes() && KeepsNodes()
      ensures package.None? ==>
        outcome == Fail(ArgumentNullException("package")) && directedGraph.Model() == old(directedGraph.Model())
      ensures package.Some? ==>
        outcome == Pass &&
        directedGraph.Model() == VisualizeGraph(old(directedGraph.Model()), package.value, upgrades, specToString)
    {
      if package.None? {
        return Fail(ArgumentNullException("package"));
      }
      ghost var g := directedGraph.Model();
      var packageNode, k := EnsurePackageNode(package.value);
      ConfigurePackageNode(packageNode, package.value, k);
      var id := PackageNodeId(package.value);
      assert packageNode.id == id by {
        assert packageNode.Value() == directedGraph.nodeView.value[k];
      }
      ghost var withPackage := directedGraph.Model();
      assert withPackage == PackageStep(g, package.value);
      if upgrades.Some? {
        VisualizeUpgrades(packageNode, upgrades.value, specToString);
      }
      return Pass;
    }

    /** `Visualize`'s loop: one node and one link from `packageNode` per upgrade, in order. */
    method VisualizeUpgrades(packageNode: DirectedGraphNode, upgrades: seq<PackageUpgrade>, specToString: VersionSpec -> string)
      requires directedGraph.Valid() && AllWellFormed(upgrades)
      modifies directedGraph, directedGraph.NodeObjects()
      ensures directedGraph.Valid() && OnlyNewNodes() && KeepsNodes()
      ensures directedGraph.Model() == VisitUpgrades(old(directedGraph.Model()), old(packageNode.id), upgrades, specToString)
    {
      ghost var g := directedGraph.Model();
      ghost var id := packageNode.id;
      for i := 0 to |upgrades|
        invariant directedGraph.Valid() && OnlyNewNodes() && KeepsNodes()
        invariant packageNode.id == id
        invariant AllWellFormed(upgrades[..i])
        invariant directedGraph.Model() == VisitUpgrades(g, id, upgrades[..i], specToString)
      {
        VisitUpgradesPrefixStep(g, id, upgrades, specToString, i);
        VisualizeUpgrade(packageNode, upgrades[i], specToString);
      }
      assert upgrades[..|upgrades|] == upgrades;
    }

    /** The body of `Visualize`'s loop: the upgrade's node, its style and its link from `packageNode`. */
    method VisualizeUpgrade(packageNode: DirectedGraphNode, upgrade: PackageUpgrade, specToString: VersionSpec -> string)
      requires directedGraph.Valid() && WellFormed(upgrade)
      modifies directedGraph, directedGraph.NodeObjects()
      ensures directedGraph.Valid() && OnlyNewNodes() && KeepsNodes()
      ensures packageNode.id == old(packageNode.id)
      ensures directedGraph.Model() == VisitUpgrade(old(directedGraph.Model()), old(packageNode.id), upgrade, specToString)
    {
      ghost var g := directedGraph.Model();
      ghost var id := UpgradeNodeId(upgrade);
      ghost var ensured := UpgradeGraph.EnsureNode(NodesOf(g), id);
      var dependencyNode, j := EnsureDependencyNode(upgrade);
      assert dependencyNode.id == id;
      ConfigureDependencyNode(dependencyNode, upgrade, j);
      assert dependencyNode.id == id;
      assert packageNode.id == old(packageNode.id);
      LinkUpgrade(packageNode, dependencyNode, upgrade, specToString);
    }

    /** `CreateLink` plus `ConfigureLink`: the upgrade's link from `source` to `target`, appended and styled. */
    method LinkUpgrade(source: DirectedGraphNode, target: DirectedGraphNode, upgrade: PackageUpgrade, specToString: VersionSpec -> string)
      requires directedGraph.Valid() && WellFormed(upgrade) && target.id == UpgradeNodeId(upgrade)
      modifies directedGraph
      ensures directedGraph.Valid() && unchanged(directedGraph`nodes)
      ensures directedGraph.Model() ==
        GraphValue(old(directedGraph.Model()).nodes, Some(LinksOf(old(directedGraph.Model())) + [LinkOf(source.id, upgrade, specToString)]))
    {
      ghost var before := LinksOf(directedGraph.Model());
      var link := CreateLink(source, target);
      assert link.Value() == LinkValue(source.id, target.id, Option.None, Option.None) by {
        assert link.Value() == directedGraph.linkView.value[|before|];
      }
      ghost var created := link.Value();
      ConfigureLink(link, upgrade, specToString);
      ghost var configured := created.(
        labelText := Some(specToString(upgrade.packageDependency.value.versionSpec)),
        stroke := Some(GetStroke(upgrade.action)));
      assert configured == LinkOf(source.id, upgrade, specToString);
      assert (before + [created])[|before| := configured] == before + [configured];
    }

    /** The node of a package, found or created. */
    method EnsurePackageNode(package: Package) returns (node: DirectedGraphNode, ghost k: nat)
      requires directedGraph.Valid()
      modifies directedGraph
      ensures directedGraph.Valid() && OnlyNewNodes() && KeepsNodes()
      ensures directedGraph.Model() ==
        GraphValue(Some(UpgradeGraph.EnsureNode(NodesOf(old(directedGraph.Model())), PackageNodeId(package))), old(directedGraph.Model()).links)
      ensures k == NodeIndex(NodesOf(old(directedGraph.Model())), PackageNodeId(package))
      ensures directedGraph.nodes.Some? && k < |directedGraph.nodes.value| && directedGraph.nodes.value[k] == node
    {
      node, k := EnsureNode(PackageNodeId(package));
    }

    /** The node an upgrade points at, found or created. */
    method EnsureDependencyNode(upgrade: PackageUpgrade) returns (node: DirectedGraphNode, ghost k: nat)
      requires directedGraph.Valid() && WellFormed(upgrade)
      modifies directedGraph
      ensures directedGraph.Valid() && OnlyNewNodes() && KeepsNodes()
      ensures directedGraph.Model() ==
        GraphValue(Some(UpgradeGraph.EnsureNode(NodesOf(old(directedGraph.Model())), UpgradeNodeId(upgrade))), old(directedGraph.Model()).links)
      ensures k == NodeIndex(NodesOf(old(directedGraph.Model())), UpgradeNodeId(upgrade))
      ensures directedGraph.nodes.Some? && k < |directedGraph.nodes.value| && directedGraph.nodes.value[k] == node
    {
      node, k := EnsureNode(UpgradeNodeId(upgrade));
    }

    /**
     * Returns the first node with this id, creating, labelling and appending one when there
     * is none; `k` is its position, which the callers use to keep the ghost view in step.
     */
    method EnsureNode(id: string) returns (node: DirectedGraphNode, ghost k: nat)
      requires directedGraph.Valid()
      modifies directedGraph
      ensures directedGraph.Valid() && OnlyNewNodes() && KeepsNodes()
      ensures directedGraph.Model() ==
        GraphValue(Some(UpgradeGraph.EnsureNode(NodesOf(old(directedGraph.Model())), id)), old(directedGraph.Model()).links)
      ensures k == NodeIndex(NodesOf(old(directedGraph.Model())), id)
      ensures directedGraph.nodes.Some? && k < |directedGraph.nodes.value| && directedGraph.nodes.value[k] == node
    {
      EnsureNodes();
      ghost var ns := NodesOf(directedGraph.Model());
      var found, j := GetNode(id);
      if found == null {
        node := CreateNode(id);
        node.labelText := Some(id);
        AddNode(node);
        k := |ns|;
      } else {
        node, k := found, j;
      }
    }

    /** Creates the empty node array of a graph that has none. */
    method EnsureNodes()
      requires directedGraph.Valid()
      modifies directedGraph
      ensures directedGraph.Valid() && directedGraph.nodes.Some? && KeepsNodes()
      ensures directedGraph.NodeObjects() == old(directedGraph.NodeObjects())
      ensures directedGraph.Model() ==
        GraphValue(Some(NodesOf(old(directedGraph.Model()))), old(directedGraph.Model()).links)
    {
      if directedGraph.nodes.None? {
        directedGraph.nodes := Some([]);
        directedGraph.nodeView := Some([]);
      }
    }

    /** The first node with this id (`FirstOrDefault`), or null; `k` is its position. */
    method GetNode(id: string) returns (node: DirectedGraphNode?, ghost k: nat)
      requires directedGraph.Valid() && directedGraph.nodes.Some?
      ensures node == null <==> id !in Ids(NodesOf(directedGraph.Model()))
      ensures node != null ==>
        IndexOf(Ids(NodesOf(directedGraph.Model())), id) == Some(k) &&
        k < |directedGraph.nodes.value| && directedGraph.nodes.value[k] == node
    {
      var nodes := directedGraph.nodes.value;
      ghost var ids := Ids(NodesOf(directedGraph.Model()));
      for i := 0 to |nodes|
        invariant forall j :: 0 <= j < i ==> ids[j] != id
      {
        assert ids[i] == nodes[i].Value().id;
        if nodes[i].id == id {
          return nodes[i], i;
        }
      }
      return null, 0;
    }

    /** A new node with this id and nothing else set. */
    static method CreateNode(id: string) returns (node: DirectedGraphNode)
      ensures fresh(node) && node.Value() == NodeValue(id, Option.None, Option.None, Option.None, Option.None)
    {
      node := new DirectedGraphNode(id);
    }

    /** Appends a node the graph does not hold yet to its node array. */
    method AddNode(node: DirectedGraphNode)
      requires directedGraph.Valid() && directedGraph.nodes.Some?
      requires node !in directedGraph.NodeObjects()
      modifies directedGraph
      ensures directedGraph.Valid()
      ensures directedGraph.nodes == Some(old(directedGraph.nodes.value) + [node])
      ensures directedGraph.NodeObjects() == old(directedGraph.NodeObjects()) + {node}
      ensures directedGraph.Model() ==
        GraphValue(Some(old(directedGraph.nodeView.value) + [node.Value()]), old(directedGraph.Model()).links)
    {
      var nodes := directedGraph.nodes.value;
      assert node !in nodes;
      directedGraph.nodes := Some(nodes + [node]);
      directedGraph.nodeView := Some(directedGraph.nodeView.value + [node.Value()]);
    }

    /** A prerelease package's node gets the prerelease background; `k` is the node's position. */
    method ConfigurePackageNode(node: DirectedGraphNode, package: Package, ghost k: nat)
      requires directedGraph.Valid() && directedGraph.nodes.Some?
      requires k < |directedGraph.nodes.value| && directedGraph.nodes.value[k] == node
      modifies node, directedGraph
      ensures directedGraph.Valid() && unchanged(directedGraph`nodes, directedGraph`links)
      ensures directedGraph.Model() ==
        GraphValue(Some(old(directedGraph.nodeView.value)[k := PackageNodeStyle(old(node.Value()), package)]), old(directedGraph.Model()).links)
    {
      if !IsReleaseVersion(package.version) {
        node.background := Some(PrereleaseColor);
      }
      directedGraph.nodeView := Some(directedGraph.nodeView.value[k := node.Value()]);
    }

    /** The node of a missing package gets the missing-package stroke; `k` is the node's position. */
    method ConfigureDependencyNode(node: DirectedGraphNode, upgrade: PackageUpgrade, ghost k: nat)
      requires directedGraph.Valid() && directedGraph.nodes.Some?
      requires k < |directedGraph.nodes.value| && directedGraph.nodes.value[k] == node
      modifies node, directedGraph
      ensures directedGraph.Valid() && unchanged(directedGraph`nodes, directedGraph`links)
      ensures directedGraph.Model() ==
        GraphValue(Some(old(directedGraph.nodeView.value)[k := DependencyNodeStyle(old(node.Value()), upgrade)]), old(directedGraph.Model()).links)
    {
      if upgrade.package.None? {
        node.stroke := Some(MissingPackageColor);
        node.strokeThickness := Some(MissingPackageStrokeThickness);
      }
      directedGraph.nodeView := Some(directedGraph.nodeView.value[k := node.Value()]);
    }

    /** A new link from `source`'s id to `target`'s id, appended to the graph's links. */
    method CreateLink(source: DirectedGraphNode, target: DirectedGraphNode) returns (link: DirectedGraphLink)
      requires directedGraph.Valid()
      modifies directedGraph
      ensures directedGraph.Valid() && fresh(link) && unchanged(directedGraph`nodes)
      ensures directedGraph.links == Some(old(LinkSeq()) + [link])
      ensures directedGraph.Model() ==
        GraphValue(old(directedGraph.Model()).nodes, Some(old(LinksOf(directedGraph.Model())) + [LinkValue(source.id, target.id, Option.None, Option.None)]))
    {
      link := new DirectedGraphLink(source.id, target.id);
      AddLink(link);
    }

    /** The graph's link objects, an absent array read as empty. */
    function LinkSeq(): seq<DirectedGraphLink>
      reads this, directedGraph
    {
      if directedGraph.links.Some? then directedGraph.links.value else []
    }

    /** Appends a link to the graph's links, creating the array first when there is none. */
    method AddLink(link: DirectedGraphLink)
      requires directedGraph.Valid()
      modifies directedGraph
      ensures directedGraph.Valid() && unchanged(directedGraph`nodes)
      ensures directedGraph.links == Some(old(LinkSeq()) + [link])
      ensures directedGraph.Model() ==
        GraphValue(old(directedGraph.Model()).nodes, Some(old(LinksOf(directedGraph.Model())) + [link.Value()]))
    {
      EnsureLinks();
      var links := directedGraph.links.value;
      directedGraph.links := Some(links + [link]);
      directedGraph.linkView := Some(directedGraph.linkView.value + [link.Value()]);
    }

    /** Creates the empty link array of a graph that has none. */
    method EnsureLinks()
      requires directedGraph.Valid()
      modifies directedGraph
      ensures directedGraph.Valid() && directedGraph.links == Some(old(LinkSeq())) && unchanged(directedGraph`nodes)
      ensures directedGraph.Model() ==
        GraphValue(old(directedGraph.Model()).nodes, Some(LinksOf(old(directedGraph.Model()))))
    {
      if directedGraph.links.None? {
        directedGraph.links := Some([]);
        directedGraph.linkView := Some([]);
      }
    }

    /** Labels the last link with the dependency's version range and colours it by the action. */
    method ConfigureLink(link: DirectedGraphLink, upgrade: PackageUpgrade, specToString: VersionSpec -> string)
      requires directedGraph.Valid() && WellFormed(upgrade)
      requires directedGraph.links.Some? && |directedGraph.links.value| > 0
      requires link == directedGraph.links.value[|directedGraph.links.value| - 1]
      requires link !in directedGraph.links.value[..|directedGraph.links.value| - 1]
      modifies link, directedGraph
      ensures directedGraph.Valid() && unchanged(directedGraph`nodes, directedGraph`links)
      ensures
        var n := |directedGraph.links.value| - 1;
        directedGraph.Model() ==
          GraphValue(old(directedGraph.Model()).nodes,
            Some(old(directedGraph.linkView.value)[n := old(link.Value()).(
              labelText := Some(specToString(upgrade.packageDependency.value.versionSpec)),
              stroke := Some(GetStroke(upgrade.action)))]))
    {
      link.labelText := Some(specToString(upgrade.packageDependency.value.versionSpec));
      link.stroke := Some(GetStroke(upgrade.action));
      var n := |directedGraph.links.value| - 1;
      directedGraph.linkView := Some(directedGraph.linkView.value[n := link.Value()]);
    }
  }
}
