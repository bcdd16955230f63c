/**
 * `check_node_running`: poll the list of known node names until `node_name`
 * shows up. The polling loop gets one snapshot of `get_node_names()` per
 * iteration the timeout permits; a timeout of zero or less permits none.
 */
module NodeCheck {

  /** `node_name` is in at least one of the first `n` snapshots. */
  ghost predicate SeenWithin(snapshots: seq<seq<string>>, n: nat, nodeName: string)
    requires n <= |snapshots|
  {
    exists j :: 0 <= j < n && nodeName in snapshots[j]
  }

  /**
   * The loop of lines 53-55 and the assertion of line 56. Each iteration
   * overwrites `found` with the current scan; the loop stops after the first
   * scan that contains the name. The helper passes iff some permitted scan
   * contains it, and with no permitted iteration nothing is scanned.
   */
  method CheckNodeRunning(nodeName: string, snapshots: seq<seq<string>>)
    returns (found: bool, scans: nat)
    ensures found <==> SeenWithin(snapshots, |snapshots|, nodeName)
    ensures scans <= |snapshots|
    ensures !SeenWithin(snapshots, if scans == 0 then 0 else scans - 1, nodeName)
    ensures found ==> 0 < scans && nodeName in snapshots[scans - 1]
    ensures !found ==> scans == |snapshots|
    ensures |snapshots| == 0 ==> !found && scans == 0
  {
    found := false;
    scans := 0;
    while scans < |snapshots| && !found
      invariant scans <= |snapshots|
      invariant !SeenWithin(snapshots, if scans == 0 then 0 else scans - 1, nodeName)
      invariant found ==> 0 < scans && nodeName in snapshots[scans - 1]
      invariant !found ==> !SeenWithin(snapshots, scans, nodeName)
    {
      found := nodeName in snapshots[scans];
      scans := scans + 1;
    }
  }
}
