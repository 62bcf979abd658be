/**
 * The directed graph the visualizer fills in: nodes and links are objects whose fields
 * are set in place, and the graph holds its node and link arrays, which stay null until
 * first needed. Each object has a value view (`Value()`), and the graph keeps ghost views
 * of its two arrays that `Valid()` ties to the objects.
 */
module Dgml {

  import opened Wrappers

  datatype NodeValue = NodeValue(
    id: string, labelText: Option<string>, background: Option<string>,
    stroke: Option<string>, strokeThickness: Option<string>)

  datatype LinkValue = LinkValue(source: string, target: string, labelText: Option<string>, stroke: Option<string>)

  datatype GraphValue = GraphValue(nodes: Option<seq<NodeValue>>, links: Option<seq<LinkValue>>)

  /** The nodes of a graph value, an absent array read as empty. */
  function NodesOf(g: GraphValue): seq<NodeValue> {
    if g.nodes.Some? then g.nodes.value else []
  }

  /** The links of a graph value, an absent array read as empty. */
  function LinksOf(g: GraphValue): seq<LinkValue> {
    if g.links.Some? then g.links.value else []
  }

  class DirectedGraphNode {
    var id: string
    var labelText: Option<string>
    var background: Option<string>
    var stroke: Option<string>
    var strokeThickness: Option<string>

    /** `new DirectedGraphNode { Id = id }`: every other property unset. */
    constructor (id: string)
      ensures Value() == NodeValue(id, None, None, None, None)
    {
      this.id := id;
      labelText, background, stroke, strokeThickness := None, None, None, None;
    }

    function Value(): NodeValue
      reads this
    {
      NodeValue(id, labelText, background, stroke, strokeThickness)
    }
  }

  class DirectedGraphLink {
    var source: string
    var target: string
    var labelText: Option<string>
    var stroke: Option<string>

    /** `new DirectedGraphLink { Source = source, Target = target }`. */
    constructor (source: string, target: string)
      ensures Value() == LinkValue(source, target, None, None)
    {
      this.source, this.target := source, target;
      labelText, stroke := None, None;
    }

    function Value(): LinkValue
      reads this
    {
      LinkValue(source, target, labelText, stroke)
    }
  }

  class DirectedGraph {
    var nodes: Option<seq<DirectedGraphNode>>
    var links: Option<seq<DirectedGraphLink>>
    ghost var nodeView: Option<seq<NodeValue>>
    ghost var linkView: Option<seq<LinkValue>>

    function NodeObjects(): set<DirectedGraphNode>
      reads this
    {
      if nodes.Some? then set n | n in nodes.value else {}
    }

    function LinkObjects(): set<DirectedGraphLink>
      reads this
    {
      if links.Some? then set l | l in links.value else {}
    }

    /**
     * The views match the objects, and no node object occurs twice in the node array
     * (a node is styled in place, so two slots sharing one object would change together).
     */
    ghost predicate Valid()
      reads this, NodeObjects(), LinkObjects()
    {
      (nodes.Some? <==> nodeView.Some?) &&
      (links.Some? <==> linkView.Some?) &&
      (nodes.Some? ==>
        |nodes.value| == |nodeView.value| &&
        (forall i :: 0 <= i < |nodes.value| ==> nodes.value[i].Value() == nodeView.value[i]) &&
        (forall i, j :: 0 <= i < j < |nodes.value| ==> nodes.value[i] != nodes.value[j])) &&
      (links.Some? ==>
        |links.value| == |linkView.value| &&
        (forall i :: 0 <= i < |links.value| ==> links.value[i].Value() == linkView.value[i]))
    }

    ghost function Model(): GraphValue
      reads this
    {
      GraphValue(nodeView, linkView)
    }

    /** `new DirectedGraph()`: both arrays null. */
    constructor ()
      ensures Valid() && Model() == GraphValue(None, None)
      ensures nodes.None? && links.None?
    {
      nodes, links := None, None;
      nodeView, linkView := None, None;
    }
  }
}
