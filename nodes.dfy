/**
 * The execution nodes of a pipeline run, as the dashboard receives them, and
 * the two enumerations of the log display helper (its `STATES` and `RESULTS`).
 */
module Nodes {
  import opened Wrappers

  /** A node's `state`; `NoState` is JavaScript's `null`. */
  datatype NodeState = NoState | Running | Paused | Finished | OtherState(name: string)

  /** A node's `result`; `NoResult` is JavaScript's `null`. */
  datatype NodeResult = NoResult | Unknown | Success | Failure | OtherResult(name: string)

  /** An outgoing edge of a node; only the id of its target is read. */
  datatype Edge = Edge(id: string)

  /** An action attached to a node, with the `self` link it would be fetched from. */
  datatype Action = Action(className: string, selfHref: string)

  /** The request of an input step waiting for the user, carried opaquely. */
  datatype InputRequest = InputRequest(payload: string)

  /**
   * One execution node. `edges` and `actions` may be missing (`None`);
   * an empty `displayDescription` or `displayName` stands for a missing one.
   */
  datatype Node = Node(
    id: string,
    state: NodeState,
    result: NodeResult,
    nodeType: string,
    edges: Option<seq<Edge>>,
    actions: Option<seq<Action>>,
    input: Option<InputRequest>,
    displayName: string,
    displayDescription: string,
    durationInMillis: Option<int>,
    startTime: Option<string>,
    restartable: bool,
    firstParent: Option<string>,
    estimatedDurationInMillis: Option<int>)

  const PARALLEL: string := "PARALLEL"
  const WORKFLOW_RUN: string := "WorkflowRun"

  /** `isRunningNode`: the node is running or paused. */
  function IsRunningNode(item: Node): (b: bool)
    ensures b ==> item.state != NoState && item.state != Finished
  {
    item.state == Running || item.state == Paused
  }

  /** The number of edges, a missing list counting as none. */
  function EdgeCount(item: Node): nat {
    if item.edges.Some? then |item.edges.value| else 0
  }

  /** Nodes with pairwise distinct ids. */
  predicate DistinctIds(nodes: seq<Node>) {
    forall i, j :: 0 <= i < j < |nodes| ==> nodes[i].id != nodes[j].id
  }
}
