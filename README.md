# NuGet.Dgml upgrade analysis, modelled in Dafny

NuGet.Dgml draws the upgrade risk of a set of NuGet packages as a DGML directed graph. It has two parts:

- The **upgrade walker** takes each dependency of a package that is compatible with the target framework. It looks up the most recent package with that id and classifies the upgrade. The classification compares the dependency's version specification with that candidate:
  - `None` or `MinVersion` when the candidate satisfies the specification;
  - otherwise one of `ReleaseToRelease`, `PrereleaseToRelease`, `PrereleaseToPrerelease` or `ReleaseToPrerelease`.
- The **package upgrade visualizer** mutates one shared graph:
  - it adds the package's node, found or created by id and shaded when the package is a prerelease;
  - per upgrade, it adds the target's node, given a red border when the package is missing;
  - per upgrade, it adds one link, labelled with the version specification and coloured by the action.

A batch driver checks its arguments, builds the colour palette, and then, for each package in input order, walks its upgrades and visualizes them into one graph.

The model has seven modules:

| file | module | what it holds |
|---|---|---|
| `wrappers.dfy` | `Wrappers` | nullable values (`Option`), argument errors, results |
| `versions.dfy` | `Versions` | semantic versions and their precedence, version specifications, `Satisfies` |
| `packages.dfy` | `Packages` | packages, dependencies, the repository lookup, full names |
| `package_upgrade.dfy` | `PackageUpgrades` | the upgrade record and its `ToString` |
| `upgrade_walker.dfy` | `UpgradeWalkers` | the walker: the classification as pure functions, `IdentifyUpgrades` as a loop |
| `dgml.dfy` | `Dgml` | the graph, node and link classes; the graph's value view |
| `upgrade_graph.dfy` | `UpgradeGraph` | what the visualizer does, stated on graph values, and the lemmas about it |
| `visualizer.dfy` | `Visualizer` | the visualizer as a class whose methods mutate the graph in place |
| `driver.dfy` | `UpgradeableDependencies` | the batch driver and its properties |

How the graph is modelled:

- The graph's `Nodes` and `Links` arrays are `Option<seq<…>>` fields of a `DirectedGraph` object. They are absent until first needed.
- Each `DirectedGraphNode` and `DirectedGraphLink` is an object whose fields the visualizer sets.
- Each visualizer method is proved to change the graph's value exactly as a pure function in `UpgradeGraph` says. The lemmas in `UpgradeGraph` and in the driver then state what those functions guarantee:
  - node ids stay unique;
  - old nodes and links stay as a prefix;
  - every link connects existing nodes;
  - the colours follow the palette.

Behaviour of the code that shapes the model:

- `PackageUpgradeAction.Unknown` exists and has a stroke, but the walker never produces it. For a dependency whose id is not in the repository, it dereferences the missing package (`UpgradeWalker.cs` lines 75 and 88). The model therefore makes "every compatible dependency has a candidate" a precondition of the walker.
- The visualizer still handles upgrades whose package is absent, as its code does.
- The driver builds a palette and passes it to a two-argument visualizer constructor that `PackageUpgradeVisualizer.cs` does not declare. The visualizer hard-codes its colours, and the model does the same. The driver's palette is proved equal to those constants.
- `PackageUpgrade.cs` declares a two-argument constructor and no `Package` property. The visualizer reads `upgrade.Package`, and the walker tests compare it with the candidate. The model's record therefore carries an optional package:
  - the two-argument constructor leaves it absent;
  - the walker records the candidate, as the visualizer and the tests expect.
- `ToString` follows `PackageUpgrade.cs`, which gives "dependency (Action)". An older test expects "dependency Action".

## Model

| member | source | states |
|---|---|---|
| UpgradeWalkers.NewUpgradeWalker | src/NuGet.Dgml/UpgradeWalker.cs:31-40 | a null repository, and only a null repository, gives `ArgumentNullException("packageRepository")`; otherwise the walker holds the given repository and target framework |
| UpgradeWalkers.GetPackageUpgrades | src/NuGet.Dgml/UpgradeWalker.cs:59-67 | a null package gives `ArgumentNullException("package")` before any lookup; otherwise the result is exactly the walker's upgrade list for the package |
| UpgradeWalkers.IdentifyUpgrades | src/NuGet.Dgml/UpgradeWalker.cs:69-83 | one upgrade per compatible dependency, in the same order; the i-th records the i-th dependency, its classification against the repository's package for that id, and that package |
| UpgradeWalkers.UpgradesFollowDependencies | src/NuGet.Dgml/UpgradeWalker.cs:73-79 | the i-th upgrade carries the i-th compatible dependency and the package `FindPackage` returns for its id |
| UpgradeWalkers.DetectUpgradeAction | src/NuGet.Dgml/UpgradeWalker.cs:85-109 | the classification is never `Unknown`, and it is `None` or `MinVersion` exactly when the specification is satisfied by the candidate's version |
| UpgradeWalkers.DecisionTable | src/NuGet.Dgml/UpgradeWalker.cs:85-121 | the six reachable actions partition the inputs. Each action holds if and only if its row holds, and each row is stated on the specification's own fields: satisfied, a declared minimum below the candidate, an inclusive release maximum, and a release candidate |
| UpgradeWalkers.IsMinVersionUpgradeable | src/NuGet.Dgml/UpgradeWalker.cs:111-114 | holds only when a minimum is declared and differs from the candidate's version, so an inclusive minimum equal to the candidate never counts as raising it |
| UpgradeWalkers.DependsOnReleaseVersion | src/NuGet.Dgml/UpgradeWalker.cs:116-121 | holds only for an inclusive maximum that is a release version; `NotFromReleaseCases` gives the converse |
| UpgradeWalkers.SatisfiedAtInclusiveMinIsNone | src/NuGet.Dgml/UpgradeWalker.cs:88-92 | a satisfied specification whose inclusive minimum equals the candidate's version gives `None` |
| UpgradeWalkers.SatisfiedAboveMinIsMinVersion | src/NuGet.Dgml/UpgradeWalker.cs:111-114 | a satisfied specification whose minimum (inclusive or exclusive) precedes the candidate gives `MinVersion` |
| UpgradeWalkers.SatisfiedWithoutMinIsNone | src/NuGet.Dgml/UpgradeWalker.cs:111-114 | a satisfied specification without a minimum gives `None` |
| UpgradeWalkers.NotFromReleaseCases | src/NuGet.Dgml/UpgradeWalker.cs:116-121 | a dependency is not "from release" exactly when its maximum is absent, exclusive, or a prerelease |
| UpgradeWalkers.UnsatisfiedFromRelease | src/NuGet.Dgml/UpgradeWalker.cs:96-105 | unsatisfied and from release: `ReleaseToRelease` for a release candidate, `ReleaseToPrerelease` for a prerelease one |
| UpgradeWalkers.UnsatisfiedNotFromRelease | src/NuGet.Dgml/UpgradeWalker.cs:96-105 | unsatisfied and not from release: `PrereleaseToRelease` for a release candidate, `PrereleaseToPrerelease` for a prerelease one |
| Packages.FindPackage | src/NuGet.Dgml/UpgradeWalker.cs:75 | the lookup finds a package exactly when the repository holds that id, and then returns the repository's package |
| Packages.GetFullName | src/NuGet.Dgml/Dgml/PackageUpgradeVisualizer.cs:132 | a package's full name is its id, a space, then its version |
| Versions.ExactSpecSatisfiedOnlyByItsVersion | tests/NuGet.Dgml.Tests/StubPackageDependencyFactory.cs:5-9 | the exact specification `[v]` that the test helper builds is satisfied by `v` and by no other version |
| PackageUpgrades.NewPackageUpgrade | src/NuGet.Dgml/PackageUpgrade.cs:13-17 | the constructor stores the dependency, null included, and the action exactly as given; a datatype's fields never change |
| PackageUpgrades.ToString | src/NuGet.Dgml/PackageUpgrade.cs:39-42 | the text starts with the dependency's text, ends with ')', and is three characters longer than the dependency's text and the action name together |
| PackageUpgrades.ActionName | src/NuGet.Dgml/PackageUpgrade.cs:41 | every action prints as a capitalised enumeration name of at least four letters; `ActionNameInjective` shows the names are distinct |
| PackageUpgrades.ActionNameInjective | src/NuGet.Dgml/PackageUpgrade.cs:41 | distinct actions print distinct names |
| PackageUpgrades.ToStringDeterminesAction | src/NuGet.Dgml/PackageUpgrade.cs:39-42 | two upgrades whose dependencies print alike print alike if and only if their actions are equal |
| UpgradeGraph.GetStrokeInjective | src/NuGet.Dgml/Dgml/PackageUpgradeVisualizer.cs:220-240 | the stroke palette covers all seven actions and gives each its own colour |
| UpgradeGraph.LinkColoursApart | src/NuGet.Dgml/Dgml/PackageUpgradeVisualizer.cs:220-240 | no link stroke is "Red" (the missing-package stroke) or "Gainsboro" (the prerelease background) |
| UpgradeGraph.PackageNodeId | src/NuGet.Dgml/Dgml/PackageUpgradeVisualizer.cs:132 | a package's node id begins with the package id followed by a space, so it is always longer than the bare id |
| UpgradeGraph.DependencyNodeId | src/NuGet.Dgml/Dgml/PackageUpgradeVisualizer.cs:134 | a missing dependency's node is keyed by its bare id, with no version |
| UpgradeGraph.MissingNodeApart | src/NuGet.Dgml/Dgml/PackageUpgradeVisualizer.cs:128-134 | a missing dependency's node never coincides with the node of a package of the same id |
| UpgradeGraph.UpgradeNodeId | src/NuGet.Dgml/Dgml/PackageUpgradeVisualizer.cs:128-134 | an upgrade's node id is the candidate's full name when a candidate is present, else the bare dependency id |
| UpgradeGraph.PackageNodeStyle | src/NuGet.Dgml/Dgml/PackageUpgradeVisualizer.cs:114-120 | styling a package node changes only its background, and only for a prerelease, to "Gainsboro" |
| UpgradeGraph.DependencyNodeStyle | src/NuGet.Dgml/Dgml/PackageUpgradeVisualizer.cs:177-184 | styling an upgrade's node changes only its stroke and thickness, and only when the package is missing, to "Red" and "2" |
| UpgradeGraph.GetStroke | src/NuGet.Dgml/Dgml/PackageUpgradeVisualizer.cs:220-240 | each of the seven actions gets the colour its switch case gives |
| UpgradeGraph.LinkOf | src/NuGet.Dgml/Dgml/PackageUpgradeVisualizer.cs:186-218 | an upgrade's link leaves the given source, reaches the upgrade's node, is labelled with the specification's text and has the action's stroke |
| UpgradeGraph.PackageStep | src/NuGet.Dgml/Dgml/PackageUpgradeVisualizer.cs:93-94 | the package step leaves the links alone and adds a node exactly when no node has the package's id |
| UpgradeGraph.VisitUpgrade | src/NuGet.Dgml/Dgml/PackageUpgradeVisualizer.cs:100-103 | one iteration never removes a node and adds exactly one link |
| UpgradeGraph.VisitUpgrades | src/NuGet.Dgml/Dgml/PackageUpgradeVisualizer.cs:98-104 | the loop never removes a node and adds exactly one link per upgrade; with at least one upgrade both arrays exist afterwards |
| UpgradeGraph.VisualizeGraph | src/NuGet.Dgml/Dgml/PackageUpgradeVisualizer.cs:86-106 | after a call the node array exists and has lost nothing; null upgrades leave the links as found, otherwise one link per upgrade is added |
| UpgradeGraph.IndexOf | src/NuGet.Dgml/Dgml/PackageUpgradeVisualizer.cs:159 | the position found is the first holding the id, and no position is found only when the id is absent |
| UpgradeGraph.EnsureNode | src/NuGet.Dgml/Dgml/PackageUpgradeVisualizer.cs:136-149 | the old nodes stay as a prefix; the list grows by one exactly when the id is absent, and the added node has that id as its label |
| UpgradeGraph.NodeIndex | src/NuGet.Dgml/Dgml/PackageUpgradeVisualizer.cs:138-148 | the returned node carries the id, and it is the first node with that id |
| UpgradeGraph.EnsureNodeGrows | src/NuGet.Dgml/Dgml/PackageUpgradeVisualizer.cs:136-149 | on unique ids, ensuring a node keeps ids unique, changes no old node, and adds at most that id |
| UpgradeGraph.VisitUpgradesNodes | src/NuGet.Dgml/Dgml/PackageUpgradeVisualizer.cs:98-104 | the loop over upgrades keeps old nodes, adds nodes only for target ids, keeps ids unique, and strokes exactly the missing dependencies' nodes |
| UpgradeGraph.VisitUpgradesLinks | src/NuGet.Dgml/Dgml/PackageUpgradeVisualizer.cs:98-104 | the loop appends one expected link per upgrade after the old links, in order; with no upgrades it changes nothing |
| UpgradeGraph.VisualizeNodes | src/NuGet.Dgml/Dgml/PackageUpgradeVisualizer.cs:86-106 | on unique ids: the result has unique ids; old nodes keep id and label; new nodes are labelled with their id; ids are the old ones, the package's and the targets'; the package node alone gets the prerelease background; exactly the missing dependencies' nodes get the red stroke |
| UpgradeGraph.VisualizeLinks | src/NuGet.Dgml/Dgml/PackageUpgradeVisualizer.cs:96-105 | with null or empty upgrades the link array is left as it was, null included; otherwise it becomes the old links followed by one link per upgrade |
| UpgradeGraph.VisualizeLinkAt | src/NuGet.Dgml/Dgml/PackageUpgradeVisualizer.cs:186-218 | the link appended for the j-th upgrade leaves the package node, reaches the upgrade's node, is labelled with the version specification's text and has the action's stroke |
| UpgradeGraph.MissingDependencyMarked | src/NuGet.Dgml/Dgml/PackageUpgradeVisualizer.cs:177-184 | after visualizing, the node of an upgrade without a package exists and has stroke "Red" and thickness "2" |
| UpgradeGraph.VisualizeKeepsInvariant | src/NuGet.Dgml/Dgml/PackageUpgradeVisualizer.cs:86-106 | unique node ids and links between existing nodes are preserved by every call |
| UpgradeGraph.VisualizeAppends | src/NuGet.Dgml/Dgml/PackageUpgradeVisualizer.cs:168-204 | old node ids and old links stay as an unchanged prefix |
| UpgradeGraph.VisualizeIds | src/NuGet.Dgml/Dgml/PackageUpgradeVisualizer.cs:136-149 | the result's ids are unique, extend the old ids, and are exactly the old ids, the package's and the targets' |
| UpgradeGraph.VisualizeKnownIds | tests/NuGet.Dgml.Tests/Dgml/PackageUpgradeVisualizerFacts.cs:59-75 | when every node id needed already exists, no node is added, yet one link per upgrade is appended |
| UpgradeGraph.VisualizeTwice | src/NuGet.Dgml/Dgml/PackageUpgradeVisualizer.cs:96-105 | visualizing the same package and upgrades again adds no node but appends the links again, since links are never deduplicated |
| UpgradeGraph.VisualizePackageOnly | tests/NuGet.Dgml.Tests/Dgml/PackageUpgradeVisualizerFacts.cs:36-44 | without upgrades, a new package adds exactly its node, labelled with its full name, and the link array is left as it was |
| UpgradeGraph.PackageNodeBackground | src/NuGet.Dgml/Dgml/PackageUpgradeVisualizer.cs:114-120 | the package's node has background "Gainsboro" for a prerelease; for a release it keeps its earlier background, none if new |
| UpgradeGraph.NewPackageNodeLabel | src/NuGet.Dgml/Dgml/PackageUpgradeVisualizer.cs:143-145 | a newly created package node follows the old nodes and has the full name "id version" as both id and label |
| Visualizer.NewPackageUpgradeVisualizer | src/NuGet.Dgml/Dgml/PackageUpgradeVisualizer.cs:19-27 | a null graph, and only a null graph, gives `ArgumentNullException("directedGraph")`; otherwise the visualizer holds that graph |
| Visualizer.PackageUpgradeVisualizer.Visualize | src/NuGet.Dgml/Dgml/PackageUpgradeVisualizer.cs:86-106 | a null package gives `ArgumentNullException("package")` and leaves the graph as it was; otherwise the graph becomes `VisualizeGraph` of its old value, every node object is old or new, and the node objects it held before stay, in order, as a prefix of its nodes |
| Visualizer.PackageUpgradeVisualizer.VisualizeUpgrades | src/NuGet.Dgml/Dgml/PackageUpgradeVisualizer.cs:96-105 | the loop over upgrades changes the graph as `VisitUpgrades` says and keeps the old node objects as a prefix |
| Visualizer.PackageUpgradeVisualizer.VisualizeUpgrade | src/NuGet.Dgml/Dgml/PackageUpgradeVisualizer.cs:100-103 | one loop iteration changes the graph as `VisitUpgrade` says and keeps the package node's id |
| Visualizer.PackageUpgradeVisualizer.LinkUpgrade | src/NuGet.Dgml/Dgml/PackageUpgradeVisualizer.cs:102-103 | appends exactly the link `LinkOf` describes and leaves the nodes untouched |
| Visualizer.PackageUpgradeVisualizer.EnsurePackageNode | src/NuGet.Dgml/Dgml/PackageUpgradeVisualizer.cs:108-112 | the graph's nodes become `EnsureNode` of the package's full name; the returned object sits at `NodeIndex` |
| Visualizer.PackageUpgradeVisualizer.EnsureDependencyNode | src/NuGet.Dgml/Dgml/PackageUpgradeVisualizer.cs:122-126 | the same for the upgrade's node id |
| Visualizer.PackageUpgradeVisualizer.EnsureNode | src/NuGet.Dgml/Dgml/PackageUpgradeVisualizer.cs:136-149 | the nodes become `EnsureNode` of their old value, the links are unchanged, the returned object is the node at `NodeIndex`, and the old node objects stay as a prefix |
| Visualizer.PackageUpgradeVisualizer.EnsureNodes | src/NuGet.Dgml/Dgml/PackageUpgradeVisualizer.cs:151-157 | an absent node array becomes empty; a present one is kept |
| Visualizer.PackageUpgradeVisualizer.GetNode | src/NuGet.Dgml/Dgml/PackageUpgradeVisualizer.cs:159 | returns null exactly when no node has the id, otherwise the node object at the first position with it |
| Visualizer.PackageUpgradeVisualizer.CreateNode | src/NuGet.Dgml/Dgml/PackageUpgradeVisualizer.cs:161-166 | a fresh node with the id and nothing else set |
| Visualizer.PackageUpgradeVisualizer.AddNode | src/NuGet.Dgml/Dgml/PackageUpgradeVisualizer.cs:168-175 | the node array becomes the old one plus the node at the end |
| Visualizer.PackageUpgradeVisualizer.ConfigurePackageNode | src/NuGet.Dgml/Dgml/PackageUpgradeVisualizer.cs:114-120 | only the given node changes, to `PackageNodeStyle` (prerelease background on a prerelease) |
| Visualizer.PackageUpgradeVisualizer.ConfigureDependencyNode | src/NuGet.Dgml/Dgml/PackageUpgradeVisualizer.cs:177-184 | only the given node changes, to `DependencyNodeStyle` (red stroke, thickness 2 when the package is missing) |
| Visualizer.PackageUpgradeVisualizer.CreateLink | src/NuGet.Dgml/Dgml/PackageUpgradeVisualizer.cs:186-193 | a fresh link from the source node's id to the target node's id is appended |
| Visualizer.PackageUpgradeVisualizer.AddLink | src/NuGet.Dgml/Dgml/PackageUpgradeVisualizer.cs:195-204 | the link array, empty if it was absent, gains the link at the end |
| Visualizer.PackageUpgradeVisualizer.EnsureLinks | src/NuGet.Dgml/Dgml/PackageUpgradeVisualizer.cs:206-212 | an absent link array becomes empty; a present one is kept |
| Visualizer.PackageUpgradeVisualizer.ConfigureLink | src/NuGet.Dgml/Dgml/PackageUpgradeVisualizer.cs:214-218 | only the last link changes: label the specification's text, stroke the action's colour |
| UpgradeableDependencies.BuildActionPalette | src/NuGet.Dgml/Dgml/IEnumerableIPackageExtensions.cs:99-106 | the palette has a colour for every one of the seven actions, equal to the visualizer's stroke |
| UpgradeableDependencies.BuildPalette | src/NuGet.Dgml/Dgml/IEnumerableIPackageExtensions.cs:99-110 | the same, plus missing-package colour "Red" and prerelease colour "Gainsboro", equal to the visualizer's constants |
| UpgradeableDependencies.VisualizeUpgradeableDependencies | src/NuGet.Dgml/Dgml/IEnumerableIPackageExtensions.cs:80-121 | null packages give `ArgumentNullException("packages")`, checked before the repository; a null repository gives `ArgumentNullException("packageRepository")`; otherwise one new graph holds every package walked and visualized in input order |
| UpgradeableDependencies.VisualizePackage | src/NuGet.Dgml/Dgml/IEnumerableIPackageExtensions.cs:114-118 | one iteration: the graph becomes `VisualizeGraph` of its old value with the walker's upgrades of the package |
| UpgradeableDependencies.VisualizeAllKeepsInvariant | src/NuGet.Dgml/Dgml/IEnumerableIPackageExtensions.cs:114-118 | over the whole package list, node ids stay unique and every link connects existing nodes |
| UpgradeableDependencies.VisualizeAllLinks | src/NuGet.Dgml/Dgml/IEnumerableIPackageExtensions.cs:114-118 | the shared graph's links are every package's expected links, package after package in input order |
| UpgradeableDependencies.PackagesWithoutDependencies | tests/NuGet.Dgml.Tests/Dgml/IEnumerableIPackageExtensionsFacts.cs:64-78 | packages without dependencies and with distinct full names give one node each, in input order, labelled with the full name, and no link array |
| UpgradeableDependencies.SharedDependency | src/NuGet.Dgml/Dgml/IEnumerableIPackageExtensions.cs:112-118 | two packages whose one dependency resolves to the same candidate give one node for it, with unique ids, and two links to it, one from each package in order |

## Left out

- I/O, the network, and the program entry point: NuGet feed search and pagination, `Program.cs`, and the `SourceRepositoryExtensions` and `PackageRepositoryExtensions` helpers.
- `PackageExtensions.cs` is not part of this model: it is glue around the walker and the visualizer, and one of its overloads calls itself.
- DGML serialization, and the layout and direction settings of `DirectedGraphFactory`. The driver starts from a graph whose arrays are both absent.
- NuGet's own behaviour beyond what the core consumes:
  - version parsing and normalised version strings;
  - the framework-compatibility rule, which is the parameter `filter`;
  - `VersionSpec.ToString` and `PackageDependency.ToString`, which are the parameters `specToString` and `dependencyToString`.
- NuGet compares special-version labels case-insensitively. `Versions.Less` compares them ordinally.
- Versions.Less: versions have three numeric parts, while NuGet's `SemanticVersion` has four. How the fourth part affects precedence, `Satisfies` and the classification is not modelled.
- UpgradeWalkers.DetectUpgradeAction: a dependency's version specification is never null in the model. The code dereferences a null specification at `UpgradeWalker.cs` line 88, and again at `PackageUpgradeVisualizer.cs` line 216. That exception is not modelled.
- The repository is a map from id to most recent package, which stands for `FindPackage`.
- UpgradeWalkers.IdentifyUpgrades: it requires a candidate for every compatible dependency. The code dereferences a missing package (`UpgradeWalker.cs` lines 75 and 88), and that null dereference is not modelled.
- Visualizer.PackageUpgradeVisualizer.Visualize: it requires every upgrade to carry its dependency. For an upgrade without a package, the code dereferences the dependency in `GetNodeId` (line 134), before that upgrade's node is added. For an upgrade with a package, it dereferences the dependency in `ConfigureLink` (line 216), after the node and the link are added. In both cases the earlier upgrades' nodes and links stay. Neither failure is modelled.
- Visualizer.PackageUpgradeVisualizer.Visualize: the upgrades are a sequence of values, so a null element cannot be expressed. The code throws on one at line 128, after the package node and the earlier upgrades have been drawn.
- UpgradeableDependencies.VisualizeUpgradeableDependencies: the packages are a sequence of values, so a null element cannot be expressed. The code's walker throws `ArgumentNullException("package")` on one (`UpgradeWalker.cs` lines 61-64), after the earlier packages have been drawn into the graph.
- The graph's node objects are required to be pairwise distinct. A graph holding the same node object twice, or node objects shared with another graph, is not modelled.
- `Array.Resize` is modelled as replacing the array by the longer sequence. Array identity is not kept.
- The palette is built by the driver, as in the code. The two-argument visualizer constructor that receives it is not in the visualizer's source, so the visualizer uses its constants. The palette is proved equal to them.
- The one-argument walker constructor is the two-argument one with an absent target framework.
- Visualizer.PackageUpgradeVisualizer.EnsureNode: a node whose `Id` is null, or a null element of `Nodes`, is not expressible, since node ids are strings and the node sequence holds objects. `GetNode` (`PackageUpgradeVisualizer.cs:159`) passes over a node with a null id, because `packageId.Equals(n.Id)` is false, and fails on a null element.
- `GetStroke`'s fallback `return null` is reached by an enumeration value outside the seven named ones, such as `(PackageUpgradeAction)7`. The model's seven-constructor datatype cannot express such a value, so a null stroke is not modelled.
