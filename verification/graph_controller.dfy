/** The expansion state of one rendered control-flow graph
    (frontend/src/hooks/useGraphController.ts): a single-node toggle, a bulk
    collapse/expand that snapshots and restores per-node state before handing the
    nodes to the layout collaborator, and the `allNodesExpanded` hint. */
module GraphController {
  import opened Outcome

  datatype Position = Position(x: real, y: real)

  /** The node payload (`CustomNodeData`). */
  datatype NodeData = NodeData(
    header: string,
    fullContent: string,
    headerWidth: real,
    headerHeight: real,
    fullContentWidth: real,
    fullContentHeight: real,
    nodeBorderColour: Option<string>,
    isExpanded: bool,
    originalExpanded: Option<bool>)

  datatype Node = Node(id: string, position: Position, data: NodeData)

  datatype Edge = Edge(id: string, source: string, target: string)

  /** What the layout collaborator resolves with. */
  datatype Layouted = Layouted(nodes: seq<Node>, edges: seq<Edge>)

  /** `applyLayout(nodes, edges, expand)`: opaque; a `Failure` is a rejection. Nothing
      is assumed about the nodes it returns. */
  type Layout = (seq<Node>, seq<Edge>, bool) -> Result<Layouted, string>

  datatype GraphState = GraphState(nodes: seq<Node>, edges: seq<Edge>, allNodesExpanded: bool)

  /** The hook's initial state: the given graph, and the hint off. */
  function Init(nodes: seq<Node>, edges: seq<Edge>): (st: GraphState)
    ensures st.nodes == nodes && st.edges == edges && !st.allNodesExpanded
  {
    GraphState(nodes, edges, false)
  }

  /** The update `toggleNodeExpand(nodeId)` applies to each node. */
  function ToggleNode(n: Node, nodeId: string): Node {
    if n.id == nodeId then n.(data := n.data.(isExpanded := !n.data.isExpanded)) else n
  }

  /** `toggleNodeExpand(nodeId)`: flips `isExpanded` on the nodes carrying `nodeId` and
      touches nothing else. */
  function ToggleNodeExpand(st: GraphState, nodeId: string): (st': GraphState)
    ensures |st'.nodes| == |st.nodes|
    ensures st'.edges == st.edges && st'.allNodesExpanded == st.allNodesExpanded
    ensures forall i :: 0 <= i < |st.nodes| && st.nodes[i].id != nodeId ==> st'.nodes[i] == st.nodes[i]
    ensures forall i :: 0 <= i < |st.nodes| && st.nodes[i].id == nodeId ==>
      && st'.nodes[i].id == st.nodes[i].id
      && st'.nodes[i].position == st.nodes[i].position
      && st'.nodes[i].data.isExpanded != st.nodes[i].data.isExpanded
      && st'.nodes[i].data.(isExpanded := st.nodes[i].data.isExpanded) == st.nodes[i].data
  {
    st.(nodes := seq(|st.nodes|, i requires 0 <= i < |st.nodes| => ToggleNode(st.nodes[i], nodeId)))
  }

  /** Toggling the same node twice gives back the state. */
  lemma ToggleTwiceRestores(st: GraphState, nodeId: string)
    ensures ToggleNodeExpand(ToggleNodeExpand(st, nodeId), nodeId) == st
  {
    var twice := ToggleNodeExpand(ToggleNodeExpand(st, nodeId), nodeId);
    assert twice.nodes == st.nodes;
  }

  /** The update the bulk operation applies to each node before layout: collapsing
      remembers `isExpanded` in `originalExpanded`; expanding restores from it,
      defaulting to expanded, and keeps the memory. */
  function BulkNode(n: Node, expand: bool): Node {
    n.(data := n.data.(
      isExpanded := if expand then n.data.originalExpanded.GetOr(true) else false,
      originalExpanded := if expand then n.data.originalExpanded else Some(n.data.isExpanded)))
  }

  /** The node list handed to `applyLayout`. */
  function BulkUpdate(nodes: seq<Node>, expand: bool): (updated: seq<Node>)
    ensures |updated| == |nodes|
    ensures forall i :: 0 <= i < |nodes| ==>
      && updated[i].id == nodes[i].id
      && updated[i].position == nodes[i].position
      && updated[i].data.(isExpanded := nodes[i].data.isExpanded,
                          originalExpanded := nodes[i].data.originalExpanded) == nodes[i].data
    ensures !expand ==> forall i :: 0 <= i < |nodes| ==>
      !updated[i].data.isExpanded && updated[i].data.originalExpanded == Some(nodes[i].data.isExpanded)
    ensures expand ==> forall i :: 0 <= i < |nodes| ==>
      && updated[i].data.originalExpanded == nodes[i].data.originalExpanded
      && (updated[i].data.isExpanded <==>
            nodes[i].data.originalExpanded.None? || nodes[i].data.originalExpanded == Some(true))
  {
    seq(|nodes|, i requires 0 <= i < |nodes| => BulkNode(nodes[i], expand))
  }

  /** Applies single-node toggles in order. */
  function ToggleEach(st: GraphState, nodeIds: seq<string>): (st': GraphState)
    ensures |st'.nodes| == |st.nodes|
    ensures forall i :: 0 <= i < |st.nodes| ==>
      st'.nodes[i].id == st.nodes[i].id &&
      st'.nodes[i].data.originalExpanded == st.nodes[i].data.originalExpanded
    decreases |nodeIds|
  {
    if |nodeIds| == 0 then st else ToggleEach(ToggleNodeExpand(st, nodeIds[0]), nodeIds[1..])
  }

  /** Collapse then expand restores every node's `isExpanded` — even for nodes toggled in
      between, since toggles leave the snapshot in `originalExpanded` alone. */
  lemma CollapseThenExpandRestores(nodes: seq<Node>, toggled: seq<string>)
    ensures var collapsed := GraphState(BulkUpdate(nodes, false), [], false);
      var restored := BulkUpdate(ToggleEach(collapsed, toggled).nodes, true);
      |restored| == |nodes| &&
      forall i :: 0 <= i < |nodes| ==>
        restored[i].id == nodes[i].id && restored[i].data.isExpanded == nodes[i].data.isExpanded
  {
  }

  /** A second collapse overwrites the snapshot with `false`, so the following expand
      leaves every node collapsed. */
  lemma CollapseTwiceForgets(nodes: seq<Node>)
    ensures var restored := BulkUpdate(BulkUpdate(BulkUpdate(nodes, false), false), true);
      forall i :: 0 <= i < |restored| ==> !restored[i].data.isExpanded
  {
  }

  /** `toggleAllExpand(expand)`: the bulk update goes through the layout collaborator;
      on success its nodes replace the graph's and the hint becomes `expand`, on rejection
      the rejection propagates and nothing changes. The edges it returns are dropped. */
  function ToggleAllExpand(st: GraphState, expand: bool, layout: Layout): (r: Result<GraphState, string>)
    ensures layout(BulkUpdate(st.nodes, expand), st.edges, expand).Failure? ==>
      r == Failure(layout(BulkUpdate(st.nodes, expand), st.edges, expand).error)
    ensures layout(BulkUpdate(st.nodes, expand), st.edges, expand).Success? ==>
      && r.Success?
      && r.value.nodes == layout(BulkUpdate(st.nodes, expand), st.edges, expand).value.nodes
      && r.value.edges == st.edges
      && r.value.allNodesExpanded == expand
  {
    var layouted :- layout(BulkUpdate(st.nodes, expand), st.edges, expand);
    Success(GraphState(layouted.nodes, st.edges, expand))
  }

  /** The layout only moves nodes: it returns the nodes it was given, in order, with the
      same ids and data. */
  ghost predicate MovesOnly(layout: Layout) {
    forall nodes: seq<Node>, edges: seq<Edge>, expand: bool ::
      layout(nodes, edges, expand).Success? ==>
        var out := layout(nodes, edges, expand).value.nodes;
        |out| == |nodes| &&
        forall i :: 0 <= i < |nodes| ==> out[i].id == nodes[i].id && out[i].data == nodes[i].data
  }

  /** With a layout that only moves nodes and accepts both calls, collapse-all then
      expand-all brings every node back to its expansion state, and the hint ends on. */
  lemma BulkRoundTripRestores(st: GraphState, layout: Layout)
    requires MovesOnly(layout)
    requires ToggleAllExpand(st, false, layout).Success?
    requires ToggleAllExpand(ToggleAllExpand(st, false, layout).value, true, layout).Success?
    ensures var final := ToggleAllExpand(ToggleAllExpand(st, false, layout).value, true, layout).value;
      && |final.nodes| == |st.nodes|
      && final.allNodesExpanded
      && forall i :: 0 <= i < |st.nodes| ==>
           final.nodes[i].id == st.nodes[i].id && final.nodes[i].data.isExpanded == st.nodes[i].data.isExpanded
  {
    var collapsedInput := BulkUpdate(st.nodes, false);
    var mid := ToggleAllExpand(st, false, layout).value;
    assert layout(collapsedInput, st.edges, false).Success?;
    var expandedInput := BulkUpdate(mid.nodes, true);
    assert layout(expandedInput, mid.edges, true).Success?;
  }

  /** The hint is not recomputed from the nodes: after an expand-all, toggling a node
      that came back expanded collapses it while the hint still says all are expanded. */
  lemma HintIgnoresToggles(st: GraphState, layout: Layout, i: nat)
    requires ToggleAllExpand(st, true, layout).Success?
    requires i < |ToggleAllExpand(st, true, layout).value.nodes|
    requires ToggleAllExpand(st, true, layout).value.nodes[i].data.isExpanded
    ensures var expanded := ToggleAllExpand(st, true, layout).value;
      var toggled := ToggleNodeExpand(expanded, expanded.nodes[i].id);
      toggled.allNodesExpanded && !toggled.nodes[i].data.isExpanded
  {
  }
}
