/**
 * The classification part of `getNodesInformation`: the filters that pick out
 * running, failed and queued nodes, and the run-level `finished` and `error`
 * flags computed from them.
 */
module Classification {
  import opened Nodes

  /** A node that counts as running: running or paused, with fewer than two edges. */
  predicate IsRunningCandidate(item: Node) {
    IsRunningNode(item) && EdgeCount(item) < 2
  }

  predicate IsFailed(item: Node) {
    item.result == Failure
  }

  /** A node still waiting in the queue: both state and result are `null`. */
  predicate IsQueued(item: Node) {
    item.state == NoState && item.result == NoResult
  }

  predicate AllQueued(nodes: seq<Node>) {
    forall i :: 0 <= i < |nodes| ==> IsQueued(nodes[i])
  }

  /** `nodes.filter(p).map(item => item.id)`. */
  function FilterIds(nodes: seq<Node>, p: Node -> bool): (r: seq<string>)
    ensures |r| <= |nodes|
    ensures |r| == |nodes| <==> forall i :: 0 <= i < |nodes| ==> p(nodes[i])
    ensures r == [] <==> forall i :: 0 <= i < |nodes| ==> !p(nodes[i])
  {
    if nodes == [] then []
    else
      var rest := FilterIds(nodes[1..], p);
      assert forall i :: 1 <= i < |nodes| ==> nodes[i] == nodes[1..][i - 1];
      (if p(nodes[0]) then [nodes[0].id] else []) + rest
  }

  /** The ids kept are exactly those of the nodes that pass the test. */
  lemma {:induction false} FilterIdsMembers(nodes: seq<Node>, p: Node -> bool)
    ensures forall x :: x in FilterIds(nodes, p) <==> exists i :: 0 <= i < |nodes| && p(nodes[i]) && nodes[i].id == x
  {
    if nodes != [] {
      FilterIdsMembers(nodes[1..], p);
      assert forall i :: 1 <= i < |nodes| ==> nodes[i] == nodes[1..][i - 1];
    }
  }

  /** Filtering keeps the input order: it distributes over concatenation. */
  lemma {:induction false} FilterIdsAppend(a: seq<Node>, b: seq<Node>, p: Node -> bool)
    ensures FilterIds(a + b, p) == FilterIds(a, p) + FilterIds(b, p)
  {
    if a == [] {
      assert a + b == b;
    } else {
      assert (a + b)[0] == a[0];
      assert (a + b)[1..] == a[1..] + b;
      FilterIdsAppend(a[1..], b, p);
      var head := if p(a[0]) then [a[0].id] else [];
      calc {
        FilterIds(a + b, p);
        head + FilterIds(a[1..] + b, p);
        head + (FilterIds(a[1..], p) + FilterIds(b, p));
        (head + FilterIds(a[1..], p)) + FilterIds(b, p);
      }
    }
  }

  /** `runningNodes`: the ids of the running or paused nodes with fewer than two edges. */
  function RunningNodes(nodes: seq<Node>): (r: seq<string>)
    ensures r == [] <==> forall i :: 0 <= i < |nodes| ==> !IsRunningCandidate(nodes[i])
  {
    FilterIds(nodes, IsRunningCandidate)
  }

  /** `errorNodes`: the ids of the nodes whose result is FAILURE. */
  function ErrorNodes(nodes: seq<Node>): (r: seq<string>)
    ensures r == [] <==> forall i :: 0 <= i < |nodes| ==> nodes[i].result != Failure
  {
    FilterIds(nodes, IsFailed)
  }

  /** `queuedNodes`: the ids of the nodes with neither state nor result. */
  function QueuedNodes(nodes: seq<Node>): (r: seq<string>)
    ensures |r| == |nodes| <==> AllQueued(nodes)
  {
    FilterIds(nodes, IsQueued)
  }

  /** `runningNodes` holds the id of every running or paused node with fewer than two edges, and no other. */
  lemma RunningNodesMembers(nodes: seq<Node>)
    ensures forall x :: x in RunningNodes(nodes) <==>
      exists i :: 0 <= i < |nodes| && IsRunningNode(nodes[i]) && EdgeCount(nodes[i]) < 2 && nodes[i].id == x
  {
    FilterIdsMembers(nodes, IsRunningCandidate);
  }

  /** `errorNodes` holds the id of every node whose result is FAILURE, and no other. */
  lemma ErrorNodesMembers(nodes: seq<Node>)
    ensures forall x :: x in ErrorNodes(nodes) <==> exists i :: 0 <= i < |nodes| && nodes[i].result == Failure && nodes[i].id == x
  {
    FilterIdsMembers(nodes, IsFailed);
  }

  /** `queuedNodes` holds the id of every node with neither state nor result, and no other. */
  lemma QueuedNodesMembers(nodes: seq<Node>)
    ensures forall x :: x in QueuedNodes(nodes) <==>
      exists i :: 0 <= i < |nodes| && nodes[i].state == NoState && nodes[i].result == NoResult && nodes[i].id == x
  {
    FilterIdsMembers(nodes, IsQueued);
  }

  /** With distinct ids, testing a node's id against the lists tests the node itself. */
  lemma MembershipWithDistinctIds(nodes: seq<Node>, i: nat)
    requires i < |nodes| && DistinctIds(nodes)
    ensures nodes[i].id in RunningNodes(nodes) <==> IsRunningCandidate(nodes[i])
    ensures nodes[i].id in ErrorNodes(nodes) <==> nodes[i].result == Failure
  {
    RunningNodesMembers(nodes);
    ErrorNodesMembers(nodes);
  }

  /** `hasResultsForSteps`: not every node is still queued. */
  function HasResultsForSteps(nodes: seq<Node>): (b: bool)
    ensures b <==> !AllQueued(nodes)
    ensures b ==> |nodes| > 0
  {
    |FilterIds(nodes, IsQueued)| != |nodes|
  }

  /** `finished`: nothing is running and not every node is queued. */
  function IsFinished(nodes: seq<Node>): (b: bool)
    ensures b ==> RunningNodes(nodes) == [] && !AllQueued(nodes)
    ensures b ==> |nodes| > 0
  {
    |RunningNodes(nodes)| == 0 && |QueuedNodes(nodes)| != |nodes|
  }

  /** `error`: some node has failed. */
  function HasError(nodes: seq<Node>): (b: bool)
    ensures b <==> ErrorNodes(nodes) != []
    ensures b ==> |nodes| > 0
  {
    !(|ErrorNodes(nodes)| == 0)
  }

  lemma FinishedIff(nodes: seq<Node>)
    ensures IsFinished(nodes) <==>
      (forall i :: 0 <= i < |nodes| ==> !IsRunningCandidate(nodes[i])) &&
      (exists i :: 0 <= i < |nodes| && !IsQueued(nodes[i]))
  {
  }

  lemma HasResultsIff(nodes: seq<Node>)
    ensures HasResultsForSteps(nodes) <==> exists i :: 0 <= i < |nodes| && !IsQueued(nodes[i])
  {
  }

  lemma HasErrorIff(nodes: seq<Node>)
    ensures HasError(nodes) <==> exists i :: 0 <= i < |nodes| && nodes[i].result == Failure
  {
  }

  /** A run whose every node is queued has no running and no failed node. */
  lemma AllQueuedHasNoRunningOrFailed(nodes: seq<Node>)
    requires AllQueued(nodes)
    ensures RunningNodes(nodes) == [] && ErrorNodes(nodes) == []
    ensures |nodes| == 0 || !IsFinished(nodes)
  {
  }
}
