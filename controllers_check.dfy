/**
 * `check_controllers_running`: first wait until every expected controller
 * node is registered under the canonical namespace, then wait until the
 * controller manager reports every expected controller in the desired state.
 *
 * Each polling loop is given the finite sequence of answers its external
 * query would return, one per iteration the timeout permits; the loop takes
 * them in order and stops early once every flag is set.
 */
module ControllersCheck {
  import opened Namespaces
  import opened FoundFlags

  /** One discovered node, as `get_node_names_and_namespaces` reports it (line 88). */
  datatype NodeEntry = NodeEntry(name: string, namespace: string)

  /** One controller record of a `list_controllers` response (line 108): its name and its state. */
  datatype Controller = Controller(name: string, state: string)

  /** The outcome of the whole check; every failure is an assertion error. */
  datatype Verdict =
    | Passed
      // some controller node never appeared under `namespace`
    | ControllerNodesMissing(namespace: string, missing: seq<string>)
      // a `list_controllers` call returned no controllers at all
    | NoControllersFound
      // some controller never reported `state`
    | NotInState(state: string, missing: seq<string>)

  // ---------------------------------------------------------------------
  // Phase 1: controller nodes present under the canonical namespace
  // ---------------------------------------------------------------------

  /** Line 90: some discovered node has name `cname` and namespace `nsApi`. */
  predicate Registered(entries: seq<NodeEntry>, cname: string, nsApi: string)
  {
    exists i :: 0 <= i < |entries| && entries[i].name == cname && entries[i].namespace == nsApi
  }

  /** `cname` is registered under `nsApi` in at least one of the snapshots. */
  ghost predicate EverRegistered(snapshots: seq<seq<NodeEntry>>, cname: string, nsApi: string)
  {
    exists j :: 0 <= j < |snapshots| && Registered(snapshots[j], cname, nsApi)
  }

  /** The presence flags after scanning `snapshots` from the initial map. */
  ghost function PresenceFlags(cnames: seq<string>, nsApi: string, snapshots: seq<seq<NodeEntry>>): (found: FoundMap)
  {
    map c | c in cnames :: EverRegistered(snapshots, c, nsApi)
  }

  lemma EverRegisteredStep(snapshots: seq<seq<NodeEntry>>, k: nat, cname: string, nsApi: string)
    requires k < |snapshots|
    ensures EverRegistered(snapshots[..k + 1], cname, nsApi) <==>
      EverRegistered(snapshots[..k], cname, nsApi) || Registered(snapshots[k], cname, nsApi)
  {
    var pre, post := snapshots[..k], snapshots[..k + 1];
    if Registered(snapshots[k], cname, nsApi) {
      assert post[k] == snapshots[k];
    }
    if EverRegistered(pre, cname, nsApi) {
      var j :| 0 <= j < k && Registered(pre[j], cname, nsApi);
      assert post[j] == pre[j];
    }
    if EverRegistered(post, cname, nsApi) {
      var j :| 0 <= j < k + 1 && Registered(post[j], cname, nsApi);
      if j < k { assert pre[j] == post[j]; }
    }
  }

  /** A name seen in the first `k` snapshots is seen in all of them. */
  lemma EverRegisteredPrefix(snapshots: seq<seq<NodeEntry>>, k: nat, cname: string, nsApi: string)
    requires k <= |snapshots|
    requires EverRegistered(snapshots[..k], cname, nsApi)
    ensures EverRegistered(snapshots, cname, nsApi)
  {
    var j :| 0 <= j < k && Registered(snapshots[..k][j], cname, nsApi);
    assert snapshots[..k][j] == snapshots[j];
  }

  /**
   * One iteration of lines 89-91: every expected name registered under
   * `nsApi` in `entries` gets its flag set; no flag is cleared and no other
   * key is added.
   */
  method PresenceScan(cnames: seq<string>, nsApi: string, entries: seq<NodeEntry>, found: FoundMap)
    returns (updated: FoundMap)
    ensures forall c :: c in updated <==> c in found || (c in cnames && Registered(entries, c, nsApi))
    ensures forall c :: c in updated ==>
      (updated[c] <==> (c in found && found[c]) || (c in cnames && Registered(entries, c, nsApi)))
  {
    updated := found;
    for k := 0 to |cnames|
      invariant forall c :: c in updated <==> c in found || (c in cnames[..k] && Registered(entries, c, nsApi))
      invariant forall c :: c in updated ==>
        (updated[c] <==> (c in found && found[c]) || (c in cnames[..k] && Registered(entries, c, nsApi)))
    {
      assert forall c :: c in cnames[..k + 1] <==> c in cnames[..k] || c == cnames[k];
      if Registered(entries, cnames[k], nsApi) {
        updated := updated[cnames[k] := true];
      }
    }
    assert cnames[..|cnames|] == cnames;
  }

  /** Before any scan the flags are those of the freshly built dictionary. */
  lemma PresenceFlagsInitial(cnames: seq<string>, nsApi: string, snapshots: seq<seq<NodeEntry>>)
    ensures PresenceFlags(cnames, nsApi, snapshots[..0]) == Initial(cnames)
  {
  }

  /** Scanning snapshot `k` takes the flags after `k` snapshots to those after `k + 1`. */
  lemma PresenceFlagsStep(cnames: seq<string>, nsApi: string, snapshots: seq<seq<NodeEntry>>, k: nat,
                          found: FoundMap, updated: FoundMap)
    requires k < |snapshots|
    requires found == PresenceFlags(cnames, nsApi, snapshots[..k])
    requires forall c :: c in updated <==> c in found || (c in cnames && Registered(snapshots[k], c, nsApi))
    requires forall c :: c in updated ==>
      (updated[c] <==> (c in found && found[c]) || (c in cnames && Registered(snapshots[k], c, nsApi)))
    ensures updated == PresenceFlags(cnames, nsApi, snapshots[..k + 1])
  {
    forall c | c in cnames {
      EverRegisteredStep(snapshots, k, c, nsApi);
    }
  }

  /**
   * When the loop stops after `scans` snapshots, either because every flag is
   * set or because none are left, its verdict is that of all the snapshots.
   */
  lemma PresenceVerdict(cnames: seq<string>, nsApi: string, snapshots: seq<seq<NodeEntry>>, scans: nat)
    requires scans <= |snapshots|
    requires scans < |snapshots| ==> AllFound(PresenceFlags(cnames, nsApi, snapshots[..scans]))
    ensures AllFound(PresenceFlags(cnames, nsApi, snapshots[..scans])) <==>
      forall c :: c in cnames ==> EverRegistered(snapshots, c, nsApi)
  {
    var found := PresenceFlags(cnames, nsApi, snapshots[..scans]);
    if AllFound(found) {
      forall c | c in cnames ensures EverRegistered(snapshots, c, nsApi) {
        assert found[c];
        EverRegisteredPrefix(snapshots, scans, c, nsApi);
      }
    } else {
      assert snapshots[..scans] == snapshots;
    }
  }

  /**
   * The loop of lines 87-92. It scans `snapshots` in order and stops as soon
   * as every flag is set; it passes iff every expected name is registered
   * under `nsApi` in some snapshot it was permitted to take.
   */
  method PresencePoll(cnames: seq<string>, nsApi: string, snapshots: seq<seq<NodeEntry>>)
    returns (found: FoundMap, scans: nat)
    ensures scans <= |snapshots|
    ensures found == PresenceFlags(cnames, nsApi, snapshots[..scans])
    ensures scans < |snapshots| ==> AllFound(found)
    ensures 0 < scans ==> exists c :: c in cnames && !EverRegistered(snapshots[..scans - 1], c, nsApi)
    ensures AllFound(found) <==> forall c :: c in cnames ==> EverRegistered(snapshots, c, nsApi)
  {
    found := Initial(cnames);
    scans := 0;
    PresenceFlagsInitial(cnames, nsApi, snapshots);
    while scans < |snapshots| && !AllFound(found)
      invariant scans <= |snapshots|
      invariant found == PresenceFlags(cnames, nsApi, snapshots[..scans])
      invariant 0 < scans ==> exists c :: c in cnames && !EverRegistered(snapshots[..scans - 1], c, nsApi)
    {
      var updated := PresenceScan(cnames, nsApi, snapshots[scans], found);
      PresenceFlagsStep(cnames, nsApi, snapshots, scans, found, updated);
      found := updated;
      scans := scans + 1;
    }
    PresenceVerdict(cnames, nsApi, snapshots, scans);
  }

  // ---------------------------------------------------------------------
  // Phase 2: controllers in the desired state
  // ---------------------------------------------------------------------

  /** Some record in `controllers` has name `cname` and state `state`. */
  predicate Reports(controllers: seq<Controller>, cname: string, state: string)
  {
    exists i :: 0 <= i < |controllers| && controllers[i].name == cname && controllers[i].state == state
  }

  /** `cname` is reported in `state` by at least one of the responses. */
  ghost predicate EverReported(responses: seq<seq<Controller>>, cname: string, state: string)
  {
    exists j :: 0 <= j < |responses| && Reports(responses[j], cname, state)
  }

  /** The state flags after scanning `responses` from the initial map. */
  ghost function StateFlags(cnames: seq<string>, state: string, responses: seq<seq<Controller>>): (found: FoundMap)
  {
    map c | c in cnames :: EverReported(responses, c, state)
  }

  /** Some expected controller has not yet been reported in `state`. */
  ghost predicate Pending(cnames: seq<string>, state: string, responses: seq<seq<Controller>>)
  {
    exists c :: c in cnames && !EverReported(responses, c, state)
  }

  /** A flag is unset exactly when some expected controller is pending. */
  lemma PendingIffNotAllFound(cnames: seq<string>, state: string, responses: seq<seq<Controller>>)
    ensures Pending(cnames, state, responses) <==> !AllFound(StateFlags(cnames, state, responses))
  {
    var flags := StateFlags(cnames, state, responses);
    if !AllFound(flags) {
      var c :| c in flags && !flags[c];
      assert c in cnames && !EverReported(responses, c, state);
    }
    if Pending(cnames, state, responses) {
      var c :| c in cnames && !EverReported(responses, c, state);
      assert c in flags && !flags[c];
    }
  }

  /**
   * The state phase aborts: a response is empty, every response before it
   * was not, and when it was requested some flag was still unset.
   */
  ghost predicate AbortsOnEmpty(cnames: seq<string>, state: string, responses: seq<seq<Controller>>)
  {
    exists k :: 0 <= k < |responses| && responses[k] == [] &&
      (forall j :: 0 <= j < k ==> responses[j] != []) &&
      Pending(cnames, state, responses[..k])
  }

  lemma ReportsStep(controllers: seq<Controller>, i: nat, cname: string, state: string)
    requires i < |controllers|
    ensures Reports(controllers[..i + 1], cname, state) <==>
      Reports(controllers[..i], cname, state) || (controllers[i].name == cname && controllers[i].state == state)
  {
    var pre, post := controllers[..i], controllers[..i + 1];
    if controllers[i].name == cname && controllers[i].state == state {
      assert post[i] == controllers[i];
    }
    if Reports(pre, cname, state) {
      var m :| 0 <= m < i && pre[m].name == cname && pre[m].state == state;
      assert post[m] == pre[m];
    }
    if Reports(post, cname, state) {
      var m :| 0 <= m < i + 1 && post[m].name == cname && post[m].state == state;
      if m < i { assert pre[m] == post[m]; }
    }
  }

  lemma EverReportedStep(responses: seq<seq<Controller>>, k: nat, cname: string, state: string)
    requires k < |responses|
    ensures EverReported(responses[..k + 1], cname, state) <==>
      EverReported(responses[..k], cname, state) || Reports(responses[k], cname, state)
  {
    var pre, post := responses[..k], responses[..k + 1];
    if Reports(responses[k], cname, state) {
      assert post[k] == responses[k];
    }
    if EverReported(pre, cname, state) {
      var j :| 0 <= j < k && Reports(pre[j], cname, state);
      assert post[j] == pre[j];
    }
    if EverReported(post, cname, state) {
      var j :| 0 <= j < k + 1 && Reports(post[j], cname, state);
      if j < k { assert pre[j] == post[j]; }
    }
  }

  /** A name reported in the first `k` responses stays reported in any longer prefix. */
  lemma EverReportedPrefix(responses: seq<seq<Controller>>, k: nat, n: nat, cname: string, state: string)
    requires k <= n <= |responses|
    requires EverReported(responses[..k], cname, state)
    ensures EverReported(responses[..n], cname, state)
  {
    var j :| 0 <= j < k && Reports(responses[..k][j], cname, state);
    assert responses[..k][j] == responses[..n][j];
  }

  /**
   * One iteration of lines 110-114. The `break` leaves only the inner loop
   * over `cnames`, and only after the one name equal to the record's name,
   * so the result is that of checking every name against every record.
   */
  method StateScan(cnames: seq<string>, state: string, controllers: seq<Controller>, found: FoundMap)
    returns (updated: FoundMap)
    ensures forall c :: c in updated <==> c in found || (c in cnames && Reports(controllers, c, state))
    ensures forall c :: c in updated ==>
      (updated[c] <==> (c in found && found[c]) || (c in cnames && Reports(controllers, c, state)))
  {
    updated := found;
    for i := 0 to |controllers|
      invariant forall c :: c in updated <==> c in found || (c in cnames && Reports(controllers[..i], c, state))
      invariant forall c :: c in updated ==>
        (updated[c] <==> (c in found && found[c]) || (c in cnames && Reports(controllers[..i], c, state)))
    {
      var record := controllers[i];
      ghost var before := updated;
      for k := 0 to |cnames|
        invariant updated == before
        invariant forall m :: 0 <= m < k ==> !(record.name == cnames[m] && record.state == state)
      {
        if record.name == cnames[k] && record.state == state {
          updated := updated[cnames[k] := true];
          break;
        }
      }
      assert record.name in cnames && record.state == state ==> updated == before[record.name := true];
      assert !(record.name in cnames && record.state == state) ==> updated == before;
      forall c {
        ReportsStep(controllers, i, c, state);
      }
    }
    assert controllers[..|controllers|] == controllers;
  }

  /** Once every flag is set after `k` responses, it stays set after `n >= k`. */
  lemma AllFoundPrefix(cnames: seq<string>, state: string, responses: seq<seq<Controller>>, k: nat, n: nat)
    requires k <= n <= |responses|
    requires AllFound(StateFlags(cnames, state, responses[..k]))
    ensures AllFound(StateFlags(cnames, state, responses[..n]))
  {
    forall c | c in cnames ensures StateFlags(cnames, state, responses[..n])[c] {
      assert StateFlags(cnames, state, responses[..k])[c];
      EverReportedPrefix(responses, k, n, c, state);
    }
  }

  /**
   * The phase cannot abort when the first `q` responses are nonempty and
   * either every flag is set after them or there are no more responses.
   */
  lemma NoAbortAfter(cnames: seq<string>, state: string, responses: seq<seq<Controller>>, q: nat)
    requires q <= |responses|
    requires forall j :: 0 <= j < q ==> responses[j] != []
    requires q == |responses| || AllFound(StateFlags(cnames, state, responses[..q]))
    ensures !AbortsOnEmpty(cnames, state, responses)
  {
    if q < |responses| {
      forall k | 0 <= k < |responses| && responses[k] == [] && (forall j :: 0 <= j < k ==> responses[j] != [])
        ensures !Pending(cnames, state, responses[..k])
      {
        assert q <= k;
        AllFoundPrefix(cnames, state, responses, q, k);
        PendingIffNotAllFound(cnames, state, responses[..k]);
      }
    }
  }

  /** Before any query the flags are those of the freshly built dictionary. */
  lemma StateFlagsInitial(cnames: seq<string>, state: string, responses: seq<seq<Controller>>)
    ensures StateFlags(cnames, state, responses[..0]) == Initial(cnames)
  {
  }

  /** Scanning response `k` takes the flags after `k` responses to those after `k + 1`. */
  lemma StateFlagsStep(cnames: seq<string>, state: string, responses: seq<seq<Controller>>, k: nat,
                       found: FoundMap, updated: FoundMap)
    requires k < |responses|
    requires found == StateFlags(cnames, state, responses[..k])
    requires forall c :: c in updated <==> c in found || (c in cnames && Reports(responses[k], c, state))
    requires forall c :: c in updated ==>
      (updated[c] <==> (c in found && found[c]) || (c in cnames && Reports(responses[k], c, state)))
    ensures updated == StateFlags(cnames, state, responses[..k + 1])
  {
    forall c | c in cnames {
      EverReportedStep(responses, k, c, state);
    }
  }

  /** An empty response requested while some flag is unset aborts the phase. */
  lemma AbortsAt(cnames: seq<string>, state: string, responses: seq<seq<Controller>>, k: nat)
    requires k < |responses| && responses[k] == []
    requires forall j :: 0 <= j < k ==> responses[j] != []
    requires Pending(cnames, state, responses[..k])
    ensures AbortsOnEmpty(cnames, state, responses)
  {
  }

  /**
   * When the loop stops after `queries` responses without aborting, its
   * verdict is that of all the responses.
   */
  lemma StateVerdict(cnames: seq<string>, state: string, responses: seq<seq<Controller>>, queries: nat)
    requires queries <= |responses|
    requires queries < |responses| ==> AllFound(StateFlags(cnames, state, responses[..queries]))
    ensures AllFound(StateFlags(cnames, state, responses[..queries])) <==>
      forall c :: c in cnames ==> EverReported(responses, c, state)
  {
    var found := StateFlags(cnames, state, responses[..queries]);
    if AllFound(found) {
      forall c | c in cnames ensures EverReported(responses, c, state) {
        assert found[c];
        EverReportedPrefix(responses, queries, |responses|, c, state);
        assert responses[..|responses|] == responses;
      }
    } else {
      assert responses[..queries] == responses;
    }
  }

  /** The flags after one scan of `controllers`, as lines 110-114 leave them. */
  ghost function StateScanned(found: FoundMap, cnames: seq<string>, state: string, controllers: seq<Controller>): FoundMap
  {
    map c | c in found.Keys + (set n | n in cnames && Reports(controllers, n, state)) ::
      (c in found && found[c]) || (c in cnames && Reports(controllers, c, state))
  }

  /** How the state phase of lines 107-115 ends. */
  datatype StatePhase = StateDone(found: FoundMap) | EmptyControllerList

  /**
   * The state loop from iteration `i` on, with flags `found`: how it ends and
   * how many responses it has scanned by then.
   */
  ghost function StateRun(cnames: seq<string>, state: string, responses: seq<seq<Controller>>,
                          i: nat, found: FoundMap): (StatePhase, nat)
    requires i <= |responses|
    decreases |responses| - i
  {
    if i == |responses| || AllFound(found) then (StateDone(found), i)
    else if responses[i] == [] then (EmptyControllerList, i)
    else StateRun(cnames, state, responses, i + 1, StateScanned(found, cnames, state, responses[i]))
  }

  /**
   * What the state loop guarantees once it has reached iteration `i` with
   * the flags of the first `i` responses: it scans only nonempty responses,
   * each while some controller is pending; it aborts on an empty response
   * requested while some controller is pending; and it stops early only
   * when every flag is set.
   */
  lemma {:induction false} StateRunFacts(cnames: seq<string>, state: string, responses: seq<seq<Controller>>,
                                         i: nat, found: FoundMap)
    requires i <= |responses|
    requires found == StateFlags(cnames, state, responses[..i])
    requires forall j :: 0 <= j < i ==> responses[j] != []
    requires forall j :: 0 <= j < i ==> Pending(cnames, state, responses[..j])
    ensures var (phase, scans) := StateRun(cnames, state, responses, i, found);
      && i <= scans <= |responses|
      && (forall j :: 0 <= j < scans ==> responses[j] != [])
      && (forall j :: 0 <= j < scans ==> Pending(cnames, state, responses[..j]))
      && (phase.EmptyControllerList? ==>
            scans < |responses| && responses[scans] == [] && Pending(cnames, state, responses[..scans]))
      && (phase.StateDone? ==> phase.found == StateFlags(cnames, state, responses[..scans]))
      && (phase.StateDone? && scans < |responses| ==> AllFound(phase.found))
    decreases |responses| - i
  {
    PendingIffNotAllFound(cnames, state, responses[..i]);
    if i == |responses| || AllFound(found) {
    } else if responses[i] == [] {
    } else {
      var updated := StateScanned(found, cnames, state, responses[i]);
      StateFlagsStep(cnames, state, responses, i, found, updated);
      StateRunFacts(cnames, state, responses, i + 1, updated);
    }
  }

  /**
   * The loop of lines 107-115. Each iteration queries the controller manager
   * (the next response) while some flag is unset; an empty response aborts
   * the phase at once, whatever the flags or the remaining iterations.
   * `scans` counts the responses scanned; an abort happens on the next one.
   */
  method StatePoll(cnames: seq<string>, state: string, responses: seq<seq<Controller>>)
    returns (phase: StatePhase, scans: nat)
    ensures (phase, scans) == StateRun(cnames, state, responses, 0, Initial(cnames))
    ensures scans <= |responses|
    ensures forall j :: 0 <= j < scans ==> responses[j] != []
    ensures forall j :: 0 <= j < scans ==> Pending(cnames, state, responses[..j])
    ensures phase.EmptyControllerList? ==>
      scans < |responses| && responses[scans] == [] && Pending(cnames, state, responses[..scans])
    ensures phase.EmptyControllerList? <==> AbortsOnEmpty(cnames, state, responses)
    ensures phase.StateDone? ==> phase.found == StateFlags(cnames, state, responses[..scans])
    ensures phase.StateDone? && scans < |responses| ==> AllFound(phase.found)
    ensures phase.StateDone? ==>
      (AllFound(phase.found) <==> forall c :: c in cnames ==> EverReported(responses, c, state))
  {
    var found := Initial(cnames);
    scans := 0;
    StateFlagsInitial(cnames, state, responses);
    StateRunFacts(cnames, state, responses, 0, found);
    while scans < |responses| && !AllFound(found)
      invariant scans <= |responses|
      invariant StateRun(cnames, state, responses, scans, found) == StateRun(cnames, state, responses, 0, Initial(cnames))
    {
      var controllers := responses[scans];
      if controllers == [] {
        phase := EmptyControllerList;
        AbortsAt(cnames, state, responses, scans);
        return;
      }
      var updated := StateScan(cnames, state, controllers, found);
      assert updated == StateScanned(found, cnames, state, controllers);
      found := updated;
      scans := scans + 1;
    }
    phase := StateDone(found);
    NoAbortAfter(cnames, state, responses, scans);
    StateVerdict(cnames, state, responses, scans);
  }

  // ---------------------------------------------------------------------
  // The whole check
  // ---------------------------------------------------------------------

  /**
   * `check_controllers_running` (line 59), with the
   * discovery snapshots and the `list_controllers` responses as inputs.
   * `service` is the controller-manager service those responses come from.
   */
  method CheckControllersRunning(
    cnames: seq<string>, namespace: string, state: string,
    nodeSnapshots: seq<seq<NodeEntry>>, responses: seq<seq<Controller>>)
    returns (verdict: Verdict, service: string)
    ensures service == ServiceName(namespace)
    ensures verdict.ControllerNodesMissing? <==>
      exists c :: c in cnames && !EverRegistered(nodeSnapshots, c, CanonicalNamespace(namespace))
    ensures verdict.ControllerNodesMissing? ==>
      verdict.namespace == CanonicalNamespace(namespace) &&
      verdict.missing == Missing(cnames, PresenceFlags(cnames, CanonicalNamespace(namespace), nodeSnapshots))
    ensures verdict.NoControllersFound? <==>
      (forall c :: c in cnames ==> EverRegistered(nodeSnapshots, c, CanonicalNamespace(namespace))) &&
      AbortsOnEmpty(cnames, state, responses)
    ensures verdict.NotInState? ==>
      verdict.state == state &&
      verdict.missing == Missing(cnames, StateFlags(cnames, state, responses)) &&
      verdict.missing != []
    ensures verdict == Passed <==>
      (forall c :: c in cnames ==> EverRegistered(nodeSnapshots, c, CanonicalNamespace(namespace))) &&
      !AbortsOnEmpty(cnames, state, responses) &&
      (forall c :: c in cnames ==> EverReported(responses, c, state))
  {
    var nsApi := CanonicalNamespace(namespace);
    var found, scans := PresencePoll(cnames, nsApi, nodeSnapshots);
    service := ServiceName(namespace);
    if !AllFound(found) {
      assert scans == |nodeSnapshots|;
      assert nodeSnapshots[..scans] == nodeSnapshots;
      verdict := ControllerNodesMissing(nsApi, Missing(cnames, found));
      return;
    }
    var phase, stateScans := StatePoll(cnames, state, responses);
    if phase.EmptyControllerList? {
      verdict := NoControllersFound;
      return;
    }
    if !AllFound(phase.found) {
      assert stateScans == |responses|;
      assert responses[..stateScans] == responses;
      MissingEmptyIffAllFound(cnames, phase.found);
      verdict := NotInState(state, Missing(cnames, phase.found));
      return;
    }
    verdict := Passed;
  }

  /**
   * Namespace "/" canonicalises to "", and the discovery API reports every
   * node under a namespace that starts with a slash, so no controller node
   * can ever be found there.
   */
  lemma RootArgumentNeverRegisters(snapshots: seq<seq<NodeEntry>>, cname: string)
    requires forall j, i :: 0 <= j < |snapshots| && 0 <= i < |snapshots[j]| ==>
      StartsWithSlash(snapshots[j][i].namespace)
    ensures !EverRegistered(snapshots, cname, CanonicalNamespace("/"))
  {
    CanonicalOfRootIsEmpty();
  }
}

/**
 * Two scenarios of `check_controllers_running` that use the helper only
 * through its contract.
 */
module ControllersScenarios {
  import opened Namespaces
  import opened FoundFlags
  import opened ControllersCheck

  const Arm: string := "arm_controller"
  const Gripper: string := "gripper_controller"

  /** Both controller nodes registered under "/robot1", the canonical form of "robot1". */
  lemma BothNodesRegistered(nodes: seq<NodeEntry>)
    requires nodes == [NodeEntry(Arm, "/robot1"), NodeEntry(Gripper, "/robot1")]
    ensures forall c :: c in [Arm, Gripper] ==> EverRegistered([nodes], c, CanonicalNamespace("robot1"))
  {
    assert CanonicalNamespace("robot1") == "/robot1";
    assert nodes[0].name == Arm && nodes[0].namespace == "/robot1";
    assert nodes[1].name == Gripper && nodes[1].namespace == "/robot1";
    assert Registered(nodes, Arm, "/robot1") && Registered(nodes, Gripper, "/robot1");
    assert [nodes][0] == nodes;
  }

  /** The service queried for "robot1". */
  lemma RobotService()
    ensures ServiceName("robot1") == "robot1/controller_manager"
  {
    assert !EndsWithSlash("robot1");
    assert "robot1" + "/" + ControllerManager == "robot1/controller_manager";
  }

  /** One response reporting both controllers "active": no abort, both reported. */
  lemma BothReportedActive(records: seq<Controller>)
    requires records == [Controller(Arm, "active"), Controller(Gripper, "active")]
    ensures forall c :: c in [Arm, Gripper] ==> EverReported([records], c, "active")
    ensures !AbortsOnEmpty([Arm, Gripper], "active", [records])
  {
    assert records[0].name == Arm && records[0].state == "active";
    assert records[1].name == Gripper && records[1].state == "active";
    assert Reports(records, Arm, "active") && Reports(records, Gripper, "active");
    assert [records][0] == records;
    NoAbortAfter([Arm, Gripper], "active", [records], 1);
  }

  /** One response reporting the arm "active" and the gripper "inactive". */
  lemma GripperReportedInactive(records: seq<Controller>)
    requires records == [Controller(Arm, "active"), Controller(Gripper, "inactive")]
    ensures EverReported([records], Arm, "active")
    ensures !EverReported([records], Gripper, "active")
  {
    assert records[0].name == Arm && records[0].state == "active";
    assert Reports(records, Arm, "active");
    assert !Reports(records, Gripper, "active");
    assert [records][0] == records;
  }

  /**
   * Both controllers are registered under "/robot1" and reported "active":
   * the helper passes and queries "robot1/controller_manager".
   */
  method BothActive() returns (verdict: Verdict, service: string)
    ensures verdict == Passed
    ensures service == "robot1/controller_manager"
  {
    var nodes := [NodeEntry(Arm, "/robot1"), NodeEntry(Gripper, "/robot1")];
    var records := [Controller(Arm, "active"), Controller(Gripper, "active")];
    BothNodesRegistered(nodes);
    BothReportedActive(records);
    RobotService();
    verdict, service := CheckControllersRunning([Arm, Gripper], "robot1", "active", [nodes], [records]);
  }

  /**
   * The gripper controller stays "inactive" in every response: the helper
   * fails and reports only the gripper controller.
   */
  method GripperInactive() returns (verdict: Verdict)
    ensures verdict.NotInState? && verdict.state == "active"
    ensures verdict.missing == [Gripper]
  {
    var nodes := [NodeEntry(Arm, "/robot1"), NodeEntry(Gripper, "/robot1")];
    var records := [Controller(Arm, "active"), Controller(Gripper, "inactive")];
    BothNodesRegistered(nodes);
    GripperReportedInactive(records);
    var service;
    verdict, service := CheckControllersRunning([Arm, Gripper], "robot1", "active", [nodes], [records]);
    OnlyName(verdict.missing, Gripper);
  }

  /**
   * With the namespace argument "/" and at least one expected controller,
   * the helper always fails in its first phase, since the discovery API
   * reports only namespaces that start with a slash.
   */
  method RootNamespaceFails(
    cnames: seq<string>, state: string,
    nodeSnapshots: seq<seq<NodeEntry>>, responses: seq<seq<Controller>>)
    returns (verdict: Verdict)
    requires cnames != []
    requires forall j, i :: 0 <= j < |nodeSnapshots| && 0 <= i < |nodeSnapshots[j]| ==>
      StartsWithSlash(nodeSnapshots[j][i].namespace)
    ensures verdict == ControllerNodesMissing("", Missing(cnames, Initial(cnames)))
    ensures verdict.missing == Distinct(cnames)
  {
    RootArgumentNeverRegisters(nodeSnapshots, cnames[0]);
    assert cnames[0] in cnames;
    forall c | c in cnames ensures !EverRegistered(nodeSnapshots, c, "") {
      RootArgumentNeverRegisters(nodeSnapshots, c);
    }
    CanonicalOfRootIsEmpty();
    assert PresenceFlags(cnames, "", nodeSnapshots) == Initial(cnames);
    var service;
    verdict, service := CheckControllersRunning(cnames, "/", state, nodeSnapshots, responses);
    UnsetAll(Distinct(cnames), Initial(cnames));
  }

  /** Filtering by all-unset flags keeps every key. */
  lemma {:induction false} UnsetAll(keys: seq<string>, found: FoundMap)
    requires forall c :: c in keys ==> c in found && !found[c]
    ensures Unset(keys, found) == keys
  {
    if keys != [] {
      assert keys[0] in keys;
      assert forall c :: c in keys[1..] ==> c in keys;
      UnsetAll(keys[1..], found);
    }
  }
}
