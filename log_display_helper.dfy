/**
 * `getNodesInformation`: the summary of a pipeline run that the dashboard's
 * log display is driven by. The model is built by one left-to-right pass that
 * threads `parent` and `wasFocused`; the summary fields are then added or
 * left out depending on whether the run has finished.
 */
module LogDisplayHelper {
  import opened Wrappers
  import opened Nodes
  import opened Classification
  import opened ModelPass

  /**
   * The information object. `isError` is `None` (the source's `null`) while the
   * run is not finished; `runningNodes` and `errorNodes` are `None` when the
   * source does not set them.
   */
  datatype Information = Information(
    isFinished: bool,
    hasResultsForSteps: bool,
    model: seq<ModelItem>,
    isError: Option<bool>,
    runningNodes: Option<seq<string>>,
    errorNodes: Option<seq<string>>)

  /** What `getNodesInformation` returns, stated without the pass. */
  function Summary(nodes: seq<Node>, isLogAction: Action -> bool): (r: Information)
    ensures |r.model| == |nodes|
    ensures r.isError.None? <==> !r.isFinished
    ensures r.runningNodes.Some? ==> r.runningNodes.value == RunningNodes(nodes)
    ensures r.errorNodes.Some? ==> r.errorNodes.value == ErrorNodes(nodes) && r.errorNodes.value != []
  {
    var finished := IsFinished(nodes);
    var error := HasError(nodes);
    Information(
      isFinished := finished,
      hasResultsForSteps := HasResultsForSteps(nodes),
      model := ModelSpec(nodes, isLogAction),
      isError := if finished then Some(error) else None,
      runningNodes := if !finished then Some(RunningNodes(nodes)) else None,
      errorNodes := if finished && error then Some(ErrorNodes(nodes)) else None)
  }

  /**
   * `getNodesInformation`: classify the nodes, run the model-building pass,
   * focus the first node of an all-queued run, and assemble the summary.
   */
  method GetNodesInformation(nodes: seq<Node>, isLogAction: Action -> bool) returns (information: Information)
    ensures information == Summary(nodes, isLogAction)
  {
    var runningNodes := RunningNodes(nodes);
    var errorNodes := ErrorNodes(nodes);
    var queuedNodes := QueuedNodes(nodes);
    var hasResultsForSteps := |FilterIds(nodes, IsQueued)| != |nodes|;
    var finished := |runningNodes| == 0 && |queuedNodes| != |nodes|;
    var error := !(|errorNodes| == 0);
    assert finished == IsFinished(nodes);
    var model, wasFocused := BuildModel(nodes, runningNodes, errorNodes, finished, isLogAction);
    ghost var passModel := model;
    // a run that is all queued focuses its first node, the next one to start
    if |queuedNodes| == |nodes| && !wasFocused && |model| > 0 {
      model := model[0 := model[0].(isFocused := true)];
    }
    FallbackCompletesModel(nodes, isLogAction, passModel, wasFocused);
    information := Information(finished, hasResultsForSteps, model, None, None, None);
    if !finished {
      information := information.(isError := None);
    } else {
      information := information.(isError := Some(error));
    }
    if !finished {
      information := information.(runningNodes := Some(runningNodes));
    } else if error {
      information := information.(errorNodes := Some(errorNodes));
    }
  }

  /** The model has one entry per node, in order, carrying the node's id. */
  lemma ModelFollowsNodes(nodes: seq<Node>, isLogAction: Action -> bool)
    ensures |Summary(nodes, isLogAction).model| == |nodes|
    ensures forall i :: 0 <= i < |nodes| ==> Summary(nodes, isLogAction).model[i].id == nodes[i].id
  {
  }

  /** `isFinished` holds iff no node is running and not every node is queued; an empty run is not finished. */
  lemma FinishedSummary(nodes: seq<Node>, isLogAction: Action -> bool)
    ensures Summary(nodes, isLogAction).isFinished <==>
      (forall i :: 0 <= i < |nodes| ==> !IsRunningCandidate(nodes[i])) && !AllQueued(nodes)
    ensures Summary(nodes, isLogAction).hasResultsForSteps <==> !AllQueued(nodes)
    ensures nodes == [] ==> !Summary(nodes, isLogAction).isFinished
  {
    FinishedIff(nodes);
    HasResultsIff(nodes);
  }

  /** `isError` is `null` until the run finishes, then tells whether some node failed. */
  lemma ErrorIsTriState(nodes: seq<Node>, isLogAction: Action -> bool)
    ensures Summary(nodes, isLogAction).isError.None? <==> !Summary(nodes, isLogAction).isFinished
    ensures Summary(nodes, isLogAction).isFinished ==>
      (Summary(nodes, isLogAction).isError == Some(true) <==> exists i :: 0 <= i < |nodes| && nodes[i].result == Failure)
  {
    HasErrorIff(nodes);
  }

  /**
   * `runningNodes` is present exactly while the run is not finished, and
   * `errorNodes` exactly when it finished with an error; never both.
   */
  lemma OptionalListsExclusive(nodes: seq<Node>, isLogAction: Action -> bool)
    ensures Summary(nodes, isLogAction).runningNodes.Some? <==> !Summary(nodes, isLogAction).isFinished
    ensures Summary(nodes, isLogAction).errorNodes.Some? <==>
      Summary(nodes, isLogAction).isFinished && Summary(nodes, isLogAction).isError == Some(true)
    ensures !(Summary(nodes, isLogAction).runningNodes.Some? && Summary(nodes, isLogAction).errorNodes.Some?)
    ensures Summary(nodes, isLogAction).errorNodes.Some? ==> Summary(nodes, isLogAction).errorNodes.value != []
  {
  }
}
