# Decision logic of the ros2_control integration-test helpers

The controller manager's test helpers (`controller_manager/test_utils.py`) hold
three checks that integration tests call.

- `check_node_running` polls the node graph until a node name shows up.
- `check_controllers_running` runs two phases:
  - it first waits until every expected controller node is registered under
    the canonical form of the namespace argument;
  - then it asks the controller manager for its controllers until each one is
    in the desired state. An empty controller list makes the helper fail at once.
- `check_if_js_published` compares the joint names of the first JointState
  message with the expected names, by count and as sets.

This project models these checks once their decisions are separated from the
clock and the ROS calls around them.

- Each polling loop receives the finite sequence of answers its external query
  would give, one per iteration the timeout permits. The empty sequence is a
  timeout of zero or less.
- The `found` dictionary is a `map<string, bool>` that the scan methods update
  one key at a time, in the source's nested `for` loops.
- Each imperative loop is proved against a ghost specification. That
  specification is the flags after a prefix of the answers (`PresenceFlags`,
  `StateFlags`), or the recursive run of the state loop (`StateRun`). Lemmas
  connect it to "some answer contained the name".

Modules:

- `Namespaces` (namespaces.dfy): the canonical namespace `namespace_api` and
  the service name `cm`.
- `FoundFlags` (found_flags.dfy): the initial dictionary, `all(found.values())`
  and the list of names a failure report gives, in the dictionary's key order.
  That order is the order in which each name first occurs in `cnames`.
- `ControllersCheck` and `ControllersScenarios` (controllers_check.dfy): the
  two phases, the whole check, and two worked scenarios used only through the
  check's contract.
- `NodeCheck` (node_check.dfy): `check_node_running`.
- `JointStateCheck` (joint_state_check.dfy): `check_if_js_published`.

Where a plain reading of the helpers' documentation and the code disagree, the
model follows the code.

- The namespace argument `"/"` canonicalises to `""`, not to `"/"`. Line 83
  drops the last character of the rooted string "/". The discovery API reports
  namespaces with a leading slash. So with this argument and a nonempty
  `cnames` the first phase always fails (`RootNamespaceFails`). With an empty
  `cnames` every flag is set from the start, and the helper passes whatever
  the namespace.
- With a timeout of zero or less, `check_node_running` scans nothing and fails.
  The `while` condition of line 53 is evaluated before the first scan.

## Model

| member | source | states |
|---|---|---|
| Namespaces.CanonicalNamespace | controller_manager/controller_manager/test_utils.py:78-85 | the empty namespace becomes "/"; otherwise the result is one character longer when no slash leads, and one shorter when the argument ends with a slash |
| Namespaces.CanonicalIsRootedCore | controller_manager/controller_manager/test_utils.py:78-85 | for a namespace other than "" and "/", the canonical form is "/" followed by the argument with at most one leading and one trailing slash removed |
| Namespaces.CanonicalOfRootIsEmpty | controller_manager/controller_manager/test_utils.py:78-85 | "/" canonicalises to "" and "" to "/" |
| Namespaces.CanonicalDropsOneTrailingSlash | controller_manager/controller_manager/test_utils.py:80-83 | the canonical form is the rooted argument, with its last character removed exactly when the argument ends with a slash |
| Namespaces.CanonicalIdempotent | controller_manager/controller_manager/test_utils.py:78-85 | canonicalising a canonical namespace that is nonempty and has no trailing slash leaves it unchanged |
| Namespaces.CanonicalExamples | controller_manager/controller_manager/test_utils.py:78-85 | "ns", "/ns", "ns/" and "/ns/" give "/ns"; "ns//" gives "/ns/"; "//" gives "/" |
| Namespaces.ServiceName | controller_manager/controller_manager/test_utils.py:100-106 | the service name always ends with "controller_manager"; it is exactly that for the empty namespace; otherwise it extends the namespace, and it starts with a slash iff the namespace does |
| Namespaces.ServiceNameExamples | controller_manager/controller_manager/test_utils.py:100-106 | "ns" and "ns/" give "ns/controller_manager"; "/ns" gives "/ns/controller_manager"; "/" gives "/controller_manager" |
| Namespaces.ServiceNameFollowsCanonical | controller_manager/controller_manager/test_utils.py:78-106 | for a nonempty namespace, the canonical namespace joined with "/controller_manager" is the service name, with the leading slash the canonical form adds |
| Namespaces.ServiceNameIgnoresTrailingSlash | controller_manager/controller_manager/test_utils.py:103-106 | appending a slash to a nonempty namespace without one does not change the service name |
| FoundFlags.Initial | controller_manager/controller_manager/test_utils.py:75 | the fresh dictionary has exactly the expected names as keys, all unset |
| FoundFlags.AllFound | controller_manager/controller_manager/test_utils.py:87 | (predicate) every flag is set: the loop test of lines 87 and 107 and the verdicts of lines 93 and 117 |
| FoundFlags.Distinct | controller_manager/controller_manager/test_utils.py:75 | the dictionary's key order holds each expected name exactly once |
| FoundFlags.DistinctInFirstOccurrenceOrder | controller_manager/controller_manager/test_utils.py:75 | the dictionary lists its keys in the order in which each name first occurs in `cnames` |
| FoundFlags.UnsetKeepsOrder | controller_manager/controller_manager/test_utils.py:95 | filtering the keys by unset flag keeps their order |
| FoundFlags.Missing | controller_manager/controller_manager/test_utils.py:93-95 | the report names, each once, exactly the expected names whose flag is false |
| FoundFlags.MissingInFirstOccurrenceOrder | controller_manager/controller_manager/test_utils.py:117-119 | the report lists the unset names in the order in which they first occur in `cnames` |
| FoundFlags.MissingEmptyIffAllFound | controller_manager/controller_manager/test_utils.py:93-95 | for a dictionary keyed by the expected names, the report is empty iff all flags are set |
| FoundFlags.MissingExample | controller_manager/controller_manager/test_utils.py:117-119 | for `["gripper","arm","gripper"]` with both unset, the report is `["gripper","arm"]`: the repeated name once, names in first-occurrence order |
| ControllersCheck.Registered | controller_manager/controller_manager/test_utils.py:90 | (predicate) some discovered node has the controller's name and the canonical namespace |
| ControllersCheck.PresenceScan | controller_manager/controller_manager/test_utils.py:88-91 | after a scan, a flag is set iff it was set before or the snapshot holds the pair (name, canonical namespace); no key but an expected name is added and no flag is cleared |
| ControllersCheck.PresenceFlagsStep | controller_manager/controller_manager/test_utils.py:87-92 | one scan takes the flags of the first k snapshots to those of the first k+1 |
| ControllersCheck.PresenceVerdict | controller_manager/controller_manager/test_utils.py:87-95 | when the loop stops, either all flags set or no snapshots left, all flags are set iff every name is registered in some snapshot |
| ControllersCheck.PresencePoll | controller_manager/controller_manager/test_utils.py:87-95 | the flags are those of the snapshots scanned; the loop stops early only when all flags are set; it scans again only while some name is unregistered; it passes iff every expected name is registered in some permitted snapshot |
| ControllersCheck.PendingIffNotAllFound | controller_manager/controller_manager/test_utils.py:107 | a flag is unset iff some expected controller has not been reported in the state |
| ControllersCheck.Reports | controller_manager/controller_manager/test_utils.py:112 | (predicate) some controller record has the name and the desired state |
| ControllersCheck.StateScanned | controller_manager/controller_manager/test_utils.py:110-114 | (ghost function) the flags after one scan: set iff set before or some record has that name and state |
| ControllersCheck.StateScan | controller_manager/controller_manager/test_utils.py:110-114 | after a scan, a flag is set iff it was set before or some record has that name and the desired state; the inner `break` does not change this |
| ControllersCheck.StateFlagsStep | controller_manager/controller_manager/test_utils.py:107-115 | one scan takes the flags of the first k responses to those of the first k+1 |
| ControllersCheck.AllFoundPrefix | controller_manager/controller_manager/test_utils.py:107 | once every flag is set it stays set |
| ControllersCheck.NoAbortAfter | controller_manager/controller_manager/test_utils.py:107-109 | after all flags are set, or with no responses left, no empty response can make the helper fail |
| ControllersCheck.AbortsAt | controller_manager/controller_manager/test_utils.py:108-109 | an empty response requested while some controller is pending makes the helper fail |
| ControllersCheck.StateVerdict | controller_manager/controller_manager/test_utils.py:107-119 | when the loop stops without aborting, all flags are set iff every controller is reported in the state by some response |
| ControllersCheck.AbortsOnEmpty | controller_manager/controller_manager/test_utils.py:107-109 | (ghost predicate) some response is empty, all earlier ones are not, and when it is requested some controller is still pending |
| ControllersCheck.StateRun | controller_manager/controller_manager/test_utils.py:107-115 | (ghost function) the state loop from an iteration on: stop when the responses run out or every flag is set, abort on an empty response, otherwise scan and go on |
| ControllersCheck.StateRunFacts | controller_manager/controller_manager/test_utils.py:107-115 | the run scans only nonempty responses, each while some controller is pending; it aborts only on an empty response while one is pending; when it finishes its flags are those of the responses scanned, and it stops early only with all flags set |
| ControllersCheck.StatePoll | controller_manager/controller_manager/test_utils.py:107-119 | the loop follows the state run; it aborts iff an empty response comes, while some controller is pending, before any earlier empty response; otherwise it passes iff every controller is reported in the state by some permitted response |
| ControllersCheck.CheckControllersRunning | controller_manager/controller_manager/test_utils.py:59-119 | the node-phase failure happens iff some controller is never registered, and names the canonical namespace and the unset names; "No controllers found" happens iff all are registered and the state loop aborts; the state failure reports the nonempty list of unset names; the helper passes iff all are registered, no abort happens and every controller is reported in the state; the queried service is the service name |
| ControllersScenarios.RootNamespaceFails | controller_manager/controller_manager/test_utils.py:78-95 | with the argument "/", nonempty `cnames` and slash-led discovered namespaces, the helper fails in its first phase, naming namespace "" and every expected name once |
| ControllersCheck.RootArgumentNeverRegisters | controller_manager/controller_manager/test_utils.py:78-91 | with the argument "/", no node reported under a slash-led namespace is ever found |
| ControllersScenarios.BothActive | controller_manager/controller_manager/test_utils.py:59-119 | two controllers registered under "/robot1" and reported active pass, and the query goes to "robot1/controller_manager" |
| ControllersScenarios.GripperInactive | controller_manager/controller_manager/test_utils.py:107-119 | an inactive gripper fails the state phase, and the report is exactly `["gripper_controller"]` |
| NodeCheck.CheckNodeRunning | controller_manager/controller_manager/test_utils.py:51-56 | passes iff some permitted scan contains the name; it stops right after the first such scan; with no permitted iteration it scans nothing and fails |
| JointStateCheck.JointNamesMatch | controller_manager/controller_manager/test_utils.py:138-140 | (predicate) equal number of names, and equal sets of names |
| JointStateCheck.CheckJointStatePublished | controller_manager/controller_manager/test_utils.py:134-141 | passes iff a message arrived and its names have the expected count and set; fails on the topic iff no message arrived, on the count iff the counts differ, and on the names only when some name is in one list and not the other |
| JointStateCheck.PermutationMatches | controller_manager/controller_manager/test_utils.py:138-140 | any reordering of the expected names passes |
| JointStateCheck.DistinctCount | controller_manager/controller_manager/test_utils.py:138-140 | in a list without duplicates every name occurs once or not at all |
| JointStateCheck.DistinctMatchIsPermutation | controller_manager/controller_manager/test_utils.py:138-140 | for lists without duplicates, the helper is exactly a permutation test |
| JointStateCheck.DuplicatesMaskDifference | controller_manager/controller_manager/test_utils.py:138-140 | ["a","a","b"] matches ["a","b","b"] although the two are not permutations of each other |
| JointStateCheck.JointStateExamples | controller_manager/controller_manager/test_utils.py:134-140 | ["a","b"] vs ["b","a"] passes; a different count fails on the count; ["a","c"] fails on the names; no message fails on the topic |

## Left out

- Wall-clock time, `time.time()`, `time.sleep(0.1)` and the timeout arithmetic: each loop instead gets the sequence of answers the timeout allows. Real time is I/O.
- The ROS discovery calls `get_node_names` and `get_node_names_and_namespaces`: their results are inputs to the model.
- The `list_controllers` service call and its own 5.0 s timeout: their results are inputs to the model.
- Exceptions from these collaborators are not modelled. Their code is not part of this model.
- The `WaitForTopics` subscription and its `shutdown()`. Transport is I/O. `wait()` is modelled as succeeding exactly when at least one message was received; only the first message's names are compared.
- The text of the assertion messages is not modelled. That includes the "but seeing ..." dump of the node graph, which calls discovery once more. The model keeps which check failed, the namespace and state it names, and the list of names it reports.
- hardware_interface/include/hardware_interface/hardware_component_info.hpp is not modelled: it is a plain data struct with no behaviour.
- The default arguments of line 59 (`namespace=""`, `state="active"`) and the timeouts: callers of `ControllersCheck.CheckControllersRunning` pass the namespace and the state explicitly, and the timeouts are replaced by the answer sequences.
