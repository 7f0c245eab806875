# Log display helper of the Blue Ocean dashboard, in Dafny

This project models `getNodesInformation`, the helper the Blue Ocean dashboard uses to summarise a
pipeline run before it displays the run's log. The helper takes the ordered list of execution
nodes of the run (stages, parallel branches, steps). Internally it computes three id lists:
`runningNodes` (running or paused nodes with fewer than two edges), `errorNodes` (failed nodes)
and `queuedNodes` (nodes with neither state nor result). `queuedNodes` is never returned. The
information object it returns holds:

- whether the run `isFinished` and whether it `hasResultsForSteps`;
- a view `model` with one entry per node;
- a tri-state `isError`;
- `runningNodes`, only while the run is not finished, or `errorNodes`, only when it finished with
  an error.

The model is built in one left-to-right pass. The pass carries a `parent` (the last node seen that
is not `PARALLEL`) and a `wasFocused` flag, so that at most one entry is focused. A run whose
nodes are all queued focuses its first node instead.

Layout, one module per file:

- `wrappers.dfy` (`Wrappers`): `Option`. `None` stands for JavaScript's `undefined` or `null`.
- `nodes.dfy` (`Nodes`): the node record, the `STATES` and `RESULTS` enumerations (with their
  `null` cases), and `isRunningNode`.
- `classification.dfy` (`Classification`): the filters, `finished`, `error` and
  `hasResultsForSteps`, with their characterisations.
- `model_pass.dfy` (`ModelPass`): the view-model entry and a non-sequential specification of the
  pass. The specification gives the nearest non-parallel earlier node and the first qualifying
  node. The method `BuildModel` is the pass itself, a `while` loop that threads `parent` and
  `wasFocused`, proved against that specification.
- `log_display_helper.dfy` (`LogDisplayHelper`): the information record, its specification
  `Summary`, and the method `GetNodesInformation`. The method applies the queued-run fallback to
  the model and adds the conditional fields. Lemmas about `Summary` state the run-level
  properties.

Only one foreign call remains: the library test `capable(action, LogAction)`. It is a parameter
`isLogAction: Action -> bool` of the operations that need it.

## Model

| member | source | states |
|---|---|---|
| `Nodes.IsRunningNode` | blueocean-dashboard/src/main/js/util/logDisplayHelper.js:16-18 | a running or paused node has a state, and it is not FINISHED |
| `Classification.FilterIds` | blueocean-dashboard/src/main/js/util/logDisplayHelper.js:23-26 | a filter-then-ids list is never longer than the nodes; it has every node's id iff every node passes, and it is empty iff no node passes |
| `Classification.FilterIdsMembers` | blueocean-dashboard/src/main/js/util/logDisplayHelper.js:23-26 | an id is in the filtered list iff some node with that id passes the test |
| `Classification.FilterIdsAppend` | blueocean-dashboard/src/main/js/util/logDisplayHelper.js:23-26 | filtering keeps input order: the filter of `a + b` is the filter of `a` followed by the filter of `b` |
| `Classification.RunningNodes` | blueocean-dashboard/src/main/js/util/logDisplayHelper.js:16-23 | `runningNodes` is empty iff no node is running or paused with fewer than two edges |
| `Classification.RunningNodesMembers` | blueocean-dashboard/src/main/js/util/logDisplayHelper.js:16-23 | `runningNodes` holds exactly the ids of the running or paused nodes that have no edges or fewer than two |
| `Classification.ErrorNodes` | blueocean-dashboard/src/main/js/util/logDisplayHelper.js:25 | `errorNodes` is empty iff no node has result FAILURE |
| `Classification.ErrorNodesMembers` | blueocean-dashboard/src/main/js/util/logDisplayHelper.js:25 | `errorNodes` holds exactly the ids of the nodes whose result is FAILURE |
| `Classification.QueuedNodes` | blueocean-dashboard/src/main/js/util/logDisplayHelper.js:26 | `queuedNodes` is as long as the node list iff every node has a null state and a null result |
| `Classification.QueuedNodesMembers` | blueocean-dashboard/src/main/js/util/logDisplayHelper.js:26 | `queuedNodes` holds exactly the ids of the nodes with a null state and a null result |
| `Classification.MembershipWithDistinctIds` | blueocean-dashboard/src/main/js/util/logDisplayHelper.js:38-39 | with distinct ids, the `indexOf` membership tests on a node's id give the same answer as testing the node itself for running and failed |
| `Classification.IsFinished` | blueocean-dashboard/src/main/js/util/logDisplayHelper.js:32-34 | a finished run has an empty `runningNodes`, is not all queued, and so has at least one node |
| `Classification.HasError` | blueocean-dashboard/src/main/js/util/logDisplayHelper.js:35 | `error` iff `errorNodes` is non-empty, so an erroneous run has at least one node |
| `Classification.HasResultsForSteps` | blueocean-dashboard/src/main/js/util/logDisplayHelper.js:28 | `hasResultsForSteps` iff not every node is queued, so it needs at least one node |
| `Classification.FinishedIff` | blueocean-dashboard/src/main/js/util/logDisplayHelper.js:32-34 | `finished` iff no node counts as running and some node is not queued |
| `Classification.HasResultsIff` | blueocean-dashboard/src/main/js/util/logDisplayHelper.js:28 | `hasResultsForSteps` iff some node is not queued |
| `Classification.HasErrorIff` | blueocean-dashboard/src/main/js/util/logDisplayHelper.js:35 | `error` iff some node has result FAILURE |
| `Classification.AllQueuedHasNoRunningOrFailed` | blueocean-dashboard/src/main/js/util/logDisplayHelper.js:26-34 | when every node is queued, no node is running or failed, and a non-empty such run is not finished |
| `ModelPass.LogActions` | blueocean-dashboard/src/main/js/util/logDisplayHelper.js:43-44 | the log actions are exactly the node's actions that pass the capability test; there are none iff no action passes; the first one is the earliest action that passes |
| `ModelPass.LogUrl` | blueocean-dashboard/src/main/js/util/logDisplayHelper.js:43-66 | `logUrl` is present iff the node has an action that passes the log capability test, and then it is the `self` link of the earliest such action |
| `ModelPass.NonZero` | blueocean-dashboard/src/main/js/util/logDisplayHelper.js:60 | `x \|\| undefined` for a number: missing iff the input is missing or zero, otherwise the input is kept |
| `ModelPass.NonEmpty` | blueocean-dashboard/src/main/js/util/logDisplayHelper.js:61-69 | `x \|\| undefined` for a string: missing iff the input is missing or empty, otherwise the input is kept |
| `ModelPass.HasFailingEdge` | blueocean-dashboard/src/main/js/util/logDisplayHelper.js:37 | a node has a failing edge only if it is a fork (two edges or more) and some node has failed |
| `ModelPass.Title` | blueocean-dashboard/src/main/js/util/logDisplayHelper.js:49 | the title is never empty and starts with the display name; the description follows after `": "` when there is one; `runId: <id>` is used when both are missing |
| `ModelPass.BaseItem` | blueocean-dashboard/src/main/js/util/logDisplayHelper.js:37-89 | an entry keeps the node's id and the parent it is given, and starts unfocused. `isRunning` is membership in `runningNodes`. `isParallel` holds iff the type is `PARALLEL`. `logUrl` is `LogUrl` of the node's actions, and `hasLogs` holds iff it is present. `isMultiBranch` holds iff the type is `WorkflowRun`. `isInputStep` holds iff the node has an input request |
| `ModelPass.BaseItemFields` | blueocean-dashboard/src/main/js/util/logDisplayHelper.js:45-89 | `computedResult` is the result once the node is completed (result neither null nor UNKNOWN), else the state. The title is `Title` of the node. Duration, start time and `firstParent` are the node's values with `0` or `""` read as missing. `estimatedDurationInMillis` is copied for a `WorkflowRun` and missing otherwise. The input request, actions, edges, type, result, state and `restartable` are copied |
| `ModelPass.ParentBefore` | blueocean-dashboard/src/main/js/util/logDisplayHelper.js:76-78 | the parent held at index `i`, when present, is the id of some earlier node that is not `PARALLEL` |
| `ModelPass.ModelSpec` | blueocean-dashboard/src/main/js/util/logDisplayHelper.js:36-54 | the model has the length of the node list, and entry `i` carries the id of node `i` |
| `ModelPass.BuildModel` | blueocean-dashboard/src/main/js/util/logDisplayHelper.js:30-91 | the left-to-right pass builds one entry per node. Entry `i` has the parent `ParentBefore(nodes, i)` and is focused iff node `i` is the first to qualify. `wasFocused` ends true iff some node qualified |
| `ModelPass.ParentIsNearestNonParallel` | blueocean-dashboard/src/main/js/util/logDisplayHelper.js:75-78 | the parent at index `i` is the id of the nearest earlier node that is not `PARALLEL`; it is missing iff every earlier node is `PARALLEL` |
| `ModelPass.ParentIsNotOwnId` | blueocean-dashboard/src/main/js/util/logDisplayHelper.js:68-78 | with distinct ids, no node becomes its own parent |
| `ModelPass.QueuedRunHasNoQualifyingNode` | blueocean-dashboard/src/main/js/util/logDisplayHelper.js:83-96 | in a run whose nodes are all queued, no node qualifies for focus in the pass |
| `ModelPass.QualifiesInContext` | blueocean-dashboard/src/main/js/util/logDisplayHelper.js:37-39 | bridge lemma that holds by definition and can be skipped: the callback's focus test, given the run's own `runningNodes`, `errorNodes` and `finished`, is the run-level focus test |
| `ModelPass.FallbackCompletesModel` | blueocean-dashboard/src/main/js/util/logDisplayHelper.js:94-96 | the pass's output with `model[0]` focused exactly when every node is queued, nothing was focused and the list is non-empty is the model |
| `ModelPass.FirstQualifyingExists` | blueocean-dashboard/src/main/js/util/logDisplayHelper.js:83-86 | if some node below `n` qualifies, a lowest qualifying node below `n` exists |
| `ModelPass.ModelFocus` | blueocean-dashboard/src/main/js/util/logDisplayHelper.js:83-96 | entry `k` is focused iff node `k` is the first to qualify, or `k` is 0 and every node is queued |
| `ModelPass.AtMostOneFocused` | blueocean-dashboard/src/main/js/util/logDisplayHelper.js:83-96 | no two entries of the model are focused |
| `ModelPass.FocusIsFirstQualifying` | blueocean-dashboard/src/main/js/util/logDisplayHelper.js:37-86 | when some node qualifies (running, or failed, not a fork into a failed node, and the run finished), some entry is focused. The focused entries are exactly the lowest qualifying index |
| `ModelPass.QueuedRunFocusesFirst` | blueocean-dashboard/src/main/js/util/logDisplayHelper.js:94-96 | a non-empty run whose nodes are all queued has `model[0]` focused and no other entry |
| `ModelPass.NothingFocusedOtherwise` | blueocean-dashboard/src/main/js/util/logDisplayHelper.js:83-96 | when no node qualifies and not every node is queued, no entry is focused |
| `ModelPass.QualifiesWithDistinctIds` | blueocean-dashboard/src/main/js/util/logDisplayHelper.js:37-39 | with distinct ids, a node qualifies iff it counts as running, or it failed, is not a fork into a failed node, and the run is finished |
| `ModelPass.RunningFlagWithDistinctIds` | blueocean-dashboard/src/main/js/util/logDisplayHelper.js:39 | with distinct ids, an entry's `isRunning` holds iff its own node is running or paused with fewer than two edges |
| `LogDisplayHelper.GetNodesInformation` | blueocean-dashboard/src/main/js/util/logDisplayHelper.js:20-115 | the method returns `Summary(nodes)`. The summary's model is built by the pass and fixed by the queued-run fallback; `isError`, `runningNodes` and `errorNodes` are set only in the cases the helper sets them |
| `LogDisplayHelper.Summary` | blueocean-dashboard/src/main/js/util/logDisplayHelper.js:98-113 | the summary's model has one entry per node; `isError` is null iff the run is not finished; `runningNodes`, when present, is the run's running list; `errorNodes`, when present, is the run's non-empty error list |
| `LogDisplayHelper.ModelFollowsNodes` | blueocean-dashboard/src/main/js/util/logDisplayHelper.js:36-54 | the returned model has one entry per node, in order, with entry `i` carrying the id of node `i` |
| `LogDisplayHelper.FinishedSummary` | blueocean-dashboard/src/main/js/util/logDisplayHelper.js:26-34 | `isFinished` iff nothing counts as running and not every node is queued; `hasResultsForSteps` iff not every node is queued; an empty run is not finished |
| `LogDisplayHelper.ErrorIsTriState` | blueocean-dashboard/src/main/js/util/logDisplayHelper.js:103-108 | `isError` is null iff the run is not finished; once finished it is true iff some node has result FAILURE |
| `LogDisplayHelper.OptionalListsExclusive` | blueocean-dashboard/src/main/js/util/logDisplayHelper.js:109-113 | `runningNodes` is present iff the run is not finished. `errorNodes` is present iff it finished with an error, and then it is non-empty. The two are never both present |

## Left out

- The `key` field (logDisplayHelper.js:48, 53) is left out. It is built by JavaScript's `+` coercion of a number, a boolean and a string.
- The `_links` field (logDisplayHelper.js:52) is an opaque object copied verbatim, so it is not modelled.
- `capable(action, 'org.jenkinsci.plugins.workflow.actions.LogAction')` (logDisplayHelper.js:43) belongs to a library that is not part of this model. It is the parameter `isLogAction`.
- The `keymirror` construction of `RESULTS` and `STATES` (lines 4-14) becomes plain datatypes. States and results outside the listed ones are `OtherState(name)` and `OtherResult(name)`.
- JavaScript truthiness is only partly modelled:
  - A missing display name or description is the empty string.
  - The source's `"null: description"` and `"undefined: description"` titles are not produced.
  - `durationInMillis`, `startTime` and `firstParent` are options, and `0` or `""` maps to missing. `NaN` is not modelled.
  - `isInputStep` (line 47) is `false` when the node has no input request, where the source yields `undefined` or `null`.
  - An input request is one opaque value; the source only tests and copies it (lines 47, 88).
  - A node's `type` is always a string. An `undefined` type is any string other than `PARALLEL` and `WorkflowRun`.
- `estimatedDurationInMillis` is missing both when the source leaves the field unset and when it sets it to `undefined`. `isFocused` and `isMultiBranch` are false where the source leaves them unset.
- In-place updates become updates of local values: `model[0].isFocused = true` and the fields added to `information`. The aliasing between the input node and its entry (the shared `actions` and `edges` arrays) is not captured.
- `blueocean-pipeline-editor/src/main/js/services/PipelineSyntaxConverter.js`, the pipeline syntax converter, is not part of this model. Its test `PipelineSyntaxConverter-spec.js` only loads step metadata from disk and compares examples.
- `acceptance-tests/src/main/java/io/blueocean/ath/api/classic/ClassicJobApi.java` is a network client against a live Jenkins server, so it is left out.
- `blueocean-dashboard/src/main/js/components/karaoke/components/InputStep.jsx` is a React component (state, asynchronous submit and rendering), so it is left out.
