/**
 * The view model that `getNodesInformation` builds for each node, and the
 * specification of the left-to-right pass that builds it: the `parent` it
 * threads (the nearest earlier node that is not `PARALLEL`) and the focus it
 * hands out (to the first node that qualifies, and to no other).
 */
module ModelPass {
  import opened Wrappers
  import opened Nodes
  import opened Classification

  /** `computedResult`: the result once the node has completed, otherwise its state. */
  datatype ComputedResult = ResultOf(result: NodeResult) | StateOf(state: NodeState)

  /** One entry of `model`; `isFocused` and `isMultiBranch` are false where the source leaves them unset. */
  datatype ModelItem = ModelItem(
    actions: Option<seq<Action>>,
    id: string,
    edges: Option<seq<Edge>>,
    nodeType: string,
    displayName: string,
    displayDescription: string,
    title: string,
    durationInMillis: Option<int>,
    startTime: Option<string>,
    result: NodeResult,
    state: NodeState,
    restartable: bool,
    hasLogs: bool,
    logUrl: Option<string>,
    isParallel: bool,
    parent: Option<string>,
    firstParent: Option<string>,
    isRunning: bool,
    isCompleted: bool,
    computedResult: ComputedResult,
    isInputStep: bool,
    estimatedDurationInMillis: Option<int>,
    isMultiBranch: bool,
    isFocused: bool,
    input: Option<InputRequest>)

  /** The actions that are log actions, in order; `isLogAction` stands for the library's `capable` test. */
  function LogActions(actions: seq<Action>, isLogAction: Action -> bool): (r: seq<Action>)
    ensures forall a :: a in r <==> a in actions && isLogAction(a)
    ensures r == [] <==> forall k :: 0 <= k < |actions| ==> !isLogAction(actions[k])
    ensures r != [] ==>
              exists k :: 0 <= k < |actions| && actions[k] == r[0] && isLogAction(actions[k]) &&
                          forall j :: 0 <= j < k ==> !isLogAction(actions[j])
  {
    if actions == [] then []
    else
      var rest := LogActions(actions[1..], isLogAction);
      assert forall k :: 1 <= k < |actions| ==> actions[k] == actions[1..][k - 1];
      if isLogAction(actions[0]) then [actions[0]] + rest else rest
  }

  /** The title shown for a node: its name, its description after a colon, or `runId: <id>` when both are missing. */
  function Title(item: Node): (t: string)
    ensures t != ""
    ensures item.displayName <= t
    ensures item.displayDescription != "" ==> t[|item.displayName|..] == ": " + item.displayDescription
    ensures item.displayDescription == "" && item.displayName != "" ==> t == item.displayName
    ensures item.displayName == "" && item.displayDescription == "" ==> t == "runId: " + item.id
  {
    var title := if item.displayDescription != "" then item.displayName + ": " + item.displayDescription
                 else item.displayName;
    if title != "" then title else "runId: " + item.id
  }

  /** `x || undefined` for a number: zero reads as missing, any other value is kept. */
  function NonZero(x: Option<int>): (r: Option<int>)
    ensures r.None? <==> x.None? || x == Some(0)
    ensures r.Some? ==> r == x
  {
    if x == Some(0) then None else x
  }

  /** `x || undefined` for a string: the empty string reads as missing, any other value is kept. */
  function NonEmpty(x: Option<string>): (r: Option<string>)
    ensures r.None? <==> x.None? || x == Some("")
    ensures r.Some? ==> r == x
  {
    if x == Some("") then None else x
  }

  /** A fork (two edges or more) with an edge into a failed node. */
  function HasFailingEdge(item: Node, errorNodes: seq<string>): (b: bool)
    ensures b ==> EdgeCount(item) >= 2 && errorNodes != []
  {
    item.edges.Some? && |item.edges.value| >= 2 &&
    exists k :: 0 <= k < |item.edges.value| && item.edges.value[k].id in errorNodes
  }

  /**
   * `logUrl`: the `self` link of the first log action, present exactly when the
   * node has a log action (`hasLogs`).
   */
  function LogUrl(actions: Option<seq<Action>>, isLogAction: Action -> bool): (u: Option<string>)
    ensures u.Some? <==> actions.Some? && exists k :: 0 <= k < |actions.value| && isLogAction(actions.value[k])
    ensures u.Some? ==>
              exists k :: 0 <= k < |actions.value| && isLogAction(actions.value[k]) &&
                          u.value == actions.value[k].selfHref &&
                          forall j :: 0 <= j < k ==> !isLogAction(actions.value[j])
  {
    var logActions := if actions.Some? then LogActions(actions.value, isLogAction) else [];
    var hasLogs := |logActions| > 0;
    if hasLogs then Some(logActions[0].selfHref) else None
  }

  /**
   * The entry the pass builds for `item` before it decides on focus, given the
   * run's `runningNodes` and the `parent` in force when the item is reached.
   */
  function BaseItem(item: Node, runningNodes: seq<string>, parent: Option<string>, isLogAction: Action -> bool): (m: ModelItem)
    ensures m.id == item.id && m.parent == parent && !m.isFocused
    ensures m.isRunning <==> item.id in runningNodes
    ensures m.isParallel <==> item.nodeType == PARALLEL
    ensures m.logUrl == LogUrl(item.actions, isLogAction) && (m.hasLogs <==> m.logUrl.Some?)
    ensures m.isMultiBranch <==> item.nodeType == WORKFLOW_RUN
    ensures m.isInputStep <==> item.input.Some?
  {
    var logUrl := LogUrl(item.actions, isLogAction);
    var isCompleted := item.result != Unknown && item.result != NoResult;
    var isInputStep := item.input.Some?;
    var isWorkflowRun := item.nodeType == WORKFLOW_RUN;
    ModelItem(
      actions := item.actions,
      id := item.id,
      edges := item.edges,
      nodeType := item.nodeType,
      displayName := item.displayName,
      displayDescription := item.displayDescription,
      title := Title(item),
      durationInMillis := NonZero(item.durationInMillis),
      startTime := NonEmpty(item.startTime),
      result := item.result,
      state := item.state,
      restartable := item.restartable,
      hasLogs := logUrl.Some?,
      logUrl := logUrl,
      isParallel := item.nodeType == PARALLEL,
      parent := parent,
      firstParent := NonEmpty(item.firstParent),
      isRunning := item.id in runningNodes,
      isCompleted := isCompleted,
      computedResult := if isCompleted then ResultOf(item.result) else StateOf(item.state),
      isInputStep := isInputStep,
      estimatedDurationInMillis := if isWorkflowRun then item.estimatedDurationInMillis else None,
      isMultiBranch := isWorkflowRun,
      isFocused := false,
      input := if isInputStep then item.input else None)
  }

  /**
   * The fields of an entry that depend on the node alone: the completed result or
   * else the state, the copied display fields with `0` and `""` read as missing,
   * the estimate of a `WorkflowRun`, and the input request.
   */
  lemma BaseItemFields(item: Node, runningNodes: seq<string>, parent: Option<string>, isLogAction: Action -> bool)
    ensures var m := BaseItem(item, runningNodes, parent, isLogAction);
      && (m.computedResult.ResultOf? <==> m.isCompleted)
      && (m.isCompleted ==> m.computedResult == ResultOf(item.result) && item.result != NoResult && item.result != Unknown)
      && (!m.isCompleted ==> m.computedResult == StateOf(item.state) && (item.result == NoResult || item.result == Unknown))
      && m.title == Title(item) && m.title != ""
      && m.durationInMillis == NonZero(item.durationInMillis)
      && m.startTime == NonEmpty(item.startTime)
      && m.firstParent == NonEmpty(item.firstParent)
      && m.estimatedDurationInMillis == (if item.nodeType == WORKFLOW_RUN then item.estimatedDurationInMillis else None)
      && m.input == item.input
      && m.actions == item.actions && m.edges == item.edges && m.nodeType == item.nodeType
      && m.result == item.result && m.state == item.state && m.restartable == item.restartable
  {
  }

  /** The `parent` the pass holds on reaching index `i`: it moves to every node that is not `PARALLEL`. */
  function ParentBefore(nodes: seq<Node>, i: nat): (p: Option<string>)
    requires i <= |nodes|
    ensures p.Some? ==> exists j :: 0 <= j < i && nodes[j].nodeType != PARALLEL && nodes[j].id == p.value
  {
    if i == 0 then None
    else if nodes[i - 1].nodeType != PARALLEL then Some(nodes[i - 1].id)
    else ParentBefore(nodes, i - 1)
  }

  /**
   * The pass would focus `item` if nothing had been focused before it: it is
   * running, or it failed, is not a fork into a failed node, and the run is finished.
   */
  predicate QualifiesIn(item: Node, runningNodes: seq<string>, errorNodes: seq<string>, finished: bool) {
    item.id in runningNodes ||
    (item.id in errorNodes && !HasFailingEdge(item, errorNodes) && finished)
  }

  /** `QualifiesIn` for the node at index `i`, in the context of its own run. */
  predicate Qualifies(nodes: seq<Node>, i: nat)
    requires i < |nodes|
  {
    QualifiesIn(nodes[i], RunningNodes(nodes), ErrorNodes(nodes), IsFinished(nodes))
  }

  /** Node `i` qualifies and no earlier node does, given the values the pass closes over. */
  predicate FirstQualifyingIn(nodes: seq<Node>, runningNodes: seq<string>, errorNodes: seq<string>, finished: bool, i: nat)
    requires i < |nodes|
  {
    QualifiesIn(nodes[i], runningNodes, errorNodes, finished) &&
    forall j :: 0 <= j < i ==> !QualifiesIn(nodes[j], runningNodes, errorNodes, finished)
  }

  /** Node `i` qualifies and no earlier node does. */
  predicate FirstQualifying(nodes: seq<Node>, i: nat)
    requires i < |nodes|
  {
    Qualifies(nodes, i) && forall j :: 0 <= j < i ==> !Qualifies(nodes, j)
  }

  /** Focus as the finished model carries it: the first qualifying node, or the first node of a queued run. */
  predicate FocusedAt(nodes: seq<Node>, i: nat)
    requires i < |nodes|
  {
    FirstQualifying(nodes, i) || (i == 0 && AllQueued(nodes))
  }

  /** The entry the pass leaves at index `i`, given the values its callback closes over. */
  function PassItemIn(nodes: seq<Node>, runningNodes: seq<string>, errorNodes: seq<string>, finished: bool,
                      isLogAction: Action -> bool, i: nat): ModelItem
    requires i < |nodes|
  {
    BaseItem(nodes[i], runningNodes, ParentBefore(nodes, i), isLogAction)
      .(isFocused := FirstQualifyingIn(nodes, runningNodes, errorNodes, finished, i))
  }

  /**
   * The pass of `nodes.map(...)`: left to right, moving `parent` to every node
   * that is not `PARALLEL` and focusing the first node that qualifies.
   */
  method BuildModel(nodes: seq<Node>, runningNodes: seq<string>, errorNodes: seq<string>, finished: bool,
                    isLogAction: Action -> bool)
    returns (model: seq<ModelItem>, wasFocused: bool)
    ensures |model| == |nodes|
    ensures forall i :: 0 <= i < |nodes| ==>
      model[i] == PassItemIn(nodes, runningNodes, errorNodes, finished, isLogAction, i)
    ensures wasFocused <==> exists j :: 0 <= j < |nodes| && QualifiesIn(nodes[j], runningNodes, errorNodes, finished)
  {
    var parent: Option<string> := None;
    wasFocused := false;
    model := [];
    var index := 0;
    while index < |nodes|
      invariant 0 <= index <= |nodes| && |model| == index
      invariant parent == ParentBefore(nodes, index)
      invariant wasFocused <==> exists j :: 0 <= j < index && QualifiesIn(nodes[j], runningNodes, errorNodes, finished)
      invariant forall i :: 0 <= i < index ==>
        model[i] == PassItemIn(nodes, runningNodes, errorNodes, finished, isLogAction, i)
    {
      var item := nodes[index];
      var hasFailingNode := HasFailingEdge(item, errorNodes);
      var isFailingNode := item.id in errorNodes;
      var isRunning := item.id in runningNodes;
      var isParallel := item.nodeType == PARALLEL;
      var modelItem := BaseItem(item, runningNodes, parent, isLogAction);
      // the parent never moves onto a parallel node
      if !isParallel {
        parent := Some(item.id);
      }
      if (isRunning || (isFailingNode && !hasFailingNode && finished)) && !wasFocused {
        wasFocused := true;
        modelItem := modelItem.(isFocused := true);
      }
      model := model + [modelItem];
      index := index + 1;
    }
  }

  /** The entry at index `i` of the finished model. */
  function ItemSpec(nodes: seq<Node>, isLogAction: Action -> bool, i: nat): ModelItem
    requires i < |nodes|
  {
    BaseItem(nodes[i], RunningNodes(nodes), ParentBefore(nodes, i), isLogAction).(isFocused := FocusedAt(nodes, i))
  }

  /** `model`: one entry per node, in the order of the nodes. */
  function ModelSpec(nodes: seq<Node>, isLogAction: Action -> bool): (model: seq<ModelItem>)
    ensures |model| == |nodes|
    ensures forall i :: 0 <= i < |nodes| ==> model[i].id == nodes[i].id
  {
    seq(|nodes|, i requires 0 <= i < |nodes| => ItemSpec(nodes, isLogAction, i))
  }

  /** The closure-based predicates agree with the run-level ones when given the run's own lists. */
  lemma QualifiesInContext(nodes: seq<Node>)
    ensures forall j :: 0 <= j < |nodes| ==>
      (QualifiesIn(nodes[j], RunningNodes(nodes), ErrorNodes(nodes), IsFinished(nodes)) <==> Qualifies(nodes, j))
    ensures forall i :: 0 <= i < |nodes| ==>
      (FirstQualifyingIn(nodes, RunningNodes(nodes), ErrorNodes(nodes), IsFinished(nodes), i) <==> FirstQualifying(nodes, i))
  {
  }

  /**
   * The pass followed by the fallback for queued runs yields the model: the
   * fallback fires exactly on a non-empty run whose nodes are all queued.
   */
  lemma FallbackCompletesModel(nodes: seq<Node>, isLogAction: Action -> bool, passModel: seq<ModelItem>, wasFocused: bool)
    requires |passModel| == |nodes|
    requires forall i :: 0 <= i < |nodes| ==>
      passModel[i] == PassItemIn(nodes, RunningNodes(nodes), ErrorNodes(nodes), IsFinished(nodes), isLogAction, i)
    requires wasFocused <==>
      exists j :: 0 <= j < |nodes| && QualifiesIn(nodes[j], RunningNodes(nodes), ErrorNodes(nodes), IsFinished(nodes))
    ensures (if AllQueued(nodes) && !wasFocused && |passModel| > 0
             then passModel[0 := passModel[0].(isFocused := true)] else passModel)
            == ModelSpec(nodes, isLogAction)
  {
    QualifiesInContext(nodes);
    if AllQueued(nodes) {
      QueuedRunHasNoQualifyingNode(nodes);
    }
    var spec := ModelSpec(nodes, isLogAction);
    var model := if AllQueued(nodes) && !wasFocused && |passModel| > 0
                 then passModel[0 := passModel[0].(isFocused := true)] else passModel;
    forall i | 0 <= i < |nodes|
      ensures model[i] == spec[i]
    {
      var base := BaseItem(nodes[i], RunningNodes(nodes), ParentBefore(nodes, i), isLogAction);
      assert spec[i] == base.(isFocused := FocusedAt(nodes, i));
      assert passModel[i] == base.(isFocused := FirstQualifying(nodes, i));
      if i == 0 && AllQueued(nodes) {
        assert model[i] == base.(isFocused := true);
      } else {
        assert model[i] == passModel[i];
      }
    }
  }

  /** The parent is the id of the nearest earlier node that is not `PARALLEL`, and missing when there is none. */
  lemma {:induction false} ParentIsNearestNonParallel(nodes: seq<Node>, i: nat)
    requires i <= |nodes|
    ensures ParentBefore(nodes, i).None? <==> forall j :: 0 <= j < i ==> nodes[j].nodeType == PARALLEL
    ensures ParentBefore(nodes, i).Some? ==>
      exists j :: 0 <= j < i && nodes[j].nodeType != PARALLEL && ParentBefore(nodes, i).value == nodes[j].id &&
        forall k :: j < k < i ==> nodes[k].nodeType == PARALLEL
  {
    if i > 0 && nodes[i - 1].nodeType == PARALLEL {
      ParentIsNearestNonParallel(nodes, i - 1);
    }
  }

  /** With distinct ids, no node is its own parent. */
  lemma ParentIsNotOwnId(nodes: seq<Node>, i: nat)
    requires i < |nodes| && DistinctIds(nodes)
    ensures ParentBefore(nodes, i) != Some(nodes[i].id)
  {
    ParentIsNearestNonParallel(nodes, i);
  }

  /** In a run whose nodes are all queued, no node qualifies for focus. */
  lemma QueuedRunHasNoQualifyingNode(nodes: seq<Node>)
    requires AllQueued(nodes)
    ensures forall i :: 0 <= i < |nodes| ==> !Qualifies(nodes, i)
  {
    AllQueuedHasNoRunningOrFailed(nodes);
  }

  /** If some node below `n` qualifies, a lowest such node exists. */
  lemma {:induction false} FirstQualifyingExists(nodes: seq<Node>, n: nat)
    requires n <= |nodes|
    requires exists j :: 0 <= j < n && Qualifies(nodes, j)
    ensures exists k :: 0 <= k < n && FirstQualifying(nodes, k)
  {
    if exists j :: 0 <= j < n - 1 && Qualifies(nodes, j) {
      FirstQualifyingExists(nodes, n - 1);
    } else {
      assert FirstQualifying(nodes, n - 1);
    }
  }

  /** The focus flag of the model, read off its specification. */
  lemma ModelFocus(nodes: seq<Node>, isLogAction: Action -> bool)
    ensures forall k :: 0 <= k < |nodes| ==> (ModelSpec(nodes, isLogAction)[k].isFocused <==> FocusedAt(nodes, k))
  {
  }

  /** At most one entry of the model is focused. */
  lemma AtMostOneFocused(nodes: seq<Node>, isLogAction: Action -> bool)
    ensures forall i, j :: 0 <= i < j < |nodes| && ModelSpec(nodes, isLogAction)[i].isFocused ==>
      !ModelSpec(nodes, isLogAction)[j].isFocused
  {
    ModelFocus(nodes, isLogAction);
    if AllQueued(nodes) {
      QueuedRunHasNoQualifyingNode(nodes);
    }
  }

  /** When some node qualifies, the focused entry is exactly the lowest qualifying one. */
  lemma FocusIsFirstQualifying(nodes: seq<Node>, isLogAction: Action -> bool)
    requires exists i :: 0 <= i < |nodes| && Qualifies(nodes, i)
    ensures exists k :: 0 <= k < |nodes| && ModelSpec(nodes, isLogAction)[k].isFocused
    ensures forall k :: 0 <= k < |nodes| ==> (ModelSpec(nodes, isLogAction)[k].isFocused <==> FirstQualifying(nodes, k))
  {
    ModelFocus(nodes, isLogAction);
    FirstQualifyingExists(nodes, |nodes|);
    var k :| 0 <= k < |nodes| && FirstQualifying(nodes, k);
    assert FocusedAt(nodes, k);
    assert !AllQueued(nodes) by {
      if AllQueued(nodes) {
        QueuedRunHasNoQualifyingNode(nodes);
      }
    }
  }

  /** A non-empty run whose every node is queued focuses its first node, and only that one. */
  lemma QueuedRunFocusesFirst(nodes: seq<Node>, isLogAction: Action -> bool)
    requires |nodes| > 0 && AllQueued(nodes)
    ensures ModelSpec(nodes, isLogAction)[0].isFocused
    ensures forall k :: 0 < k < |nodes| ==> !ModelSpec(nodes, isLogAction)[k].isFocused
  {
    ModelFocus(nodes, isLogAction);
    QueuedRunHasNoQualifyingNode(nodes);
  }

  /** When no node qualifies and the run is not all queued, nothing is focused. */
  lemma NothingFocusedOtherwise(nodes: seq<Node>, isLogAction: Action -> bool)
    requires forall i :: 0 <= i < |nodes| ==> !Qualifies(nodes, i)
    requires !AllQueued(nodes)
    ensures forall k :: 0 <= k < |nodes| ==> !ModelSpec(nodes, isLogAction)[k].isFocused
  {
    ModelFocus(nodes, isLogAction);
  }

  /**
   * The pass tests running and failing by id membership; with distinct ids that
   * is a test of the node itself.
   */
  lemma QualifiesWithDistinctIds(nodes: seq<Node>, i: nat)
    requires i < |nodes| && DistinctIds(nodes)
    ensures Qualifies(nodes, i) <==>
      IsRunningCandidate(nodes[i]) ||
      (nodes[i].result == Failure && !HasFailingEdge(nodes[i], ErrorNodes(nodes)) && IsFinished(nodes))
  {
    MembershipWithDistinctIds(nodes, i);
  }

  /** With distinct ids, an entry is marked running exactly when its own node is running. */
  lemma RunningFlagWithDistinctIds(nodes: seq<Node>, isLogAction: Action -> bool, i: nat)
    requires i < |nodes| && DistinctIds(nodes)
    ensures ModelSpec(nodes, isLogAction)[i].isRunning <==> IsRunningCandidate(nodes[i])
  {
    MembershipWithDistinctIds(nodes, i);
    assert ModelSpec(nodes, isLogAction)[i] == ItemSpec(nodes, isLogAction, i);
  }
}
