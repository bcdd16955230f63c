/**
 * The two string rewrites that `check_controllers_running` applies to its
 * `namespace` argument: the canonical form compared with the namespaces the
 * discovery API reports, and the name of the controller-manager service.
 */
module Namespaces {

  /** The base name of the controller-manager service. */
  const ControllerManager: string := "controller_manager"

  predicate StartsWithSlash(s: string) { |s| > 0 && s[0] == '/' }

  predicate EndsWithSlash(s: string) { |s| > 0 && s[|s| - 1] == '/' }

  predicate EndsWith(s: string, suffix: string)
  {
    |suffix| <= |s| && s[|s| - |suffix|..] == suffix
  }

  /** `ns` without one leading slash, if it has one. */
  function DropLeadingSlash(ns: string): (r: string)
    ensures |r| == if StartsWithSlash(ns) then |ns| - 1 else |ns|
  {
    if StartsWithSlash(ns) then ns[1..] else ns
  }

  /** `ns` without one trailing slash, if it has one. */
  function DropTrailingSlash(ns: string): (r: string)
    ensures |r| == if EndsWithSlash(ns) then |ns| - 1 else |ns|
  {
    if EndsWithSlash(ns) then ns[..|ns| - 1] else ns
  }

  /**
   * The namespace as the discovery API reports it (`namespace_api`): the empty
   * namespace is the root "/"; any other gets a leading slash if it lacks one,
   * and loses its last character when the ARGUMENT ends with a slash.
   */
  function CanonicalNamespace(namespace: string): (r: string)
    ensures namespace == "" ==> r == "/"
    ensures namespace != "" ==>
      |r| == |namespace| + (if StartsWithSlash(namespace) then 0 else 1)
                         - (if EndsWithSlash(namespace) then 1 else 0)
  {
    if namespace != "" then
      var rooted := if StartsWithSlash(namespace) then namespace else "/" + namespace;
      if EndsWithSlash(namespace) then rooted[..|rooted| - 1] else rooted
    else
      "/"
  }

  /**
   * The name of the controller-manager service queried for the namespace
   * (`cm`). No leading slash is ever added; a separating slash is added only
   * when the namespace is nonempty and does not already end with one.
   */
  function ServiceName(namespace: string): (r: string)
    ensures EndsWith(r, ControllerManager)
    ensures namespace == "" ==> r == ControllerManager
    ensures namespace != "" ==> |namespace| < |r| && r[..|namespace|] == namespace
    ensures StartsWithSlash(r) <==> StartsWithSlash(namespace)
  {
    if namespace == "" then
      ControllerManager
    else if EndsWithSlash(namespace) then
      namespace + ControllerManager
    else
      namespace + "/" + ControllerManager
  }

  /**
   * Apart from "/" itself, the canonical namespace is a slash followed by the
   * argument stripped of at most one leading and at most one trailing slash.
   */
  lemma CanonicalIsRootedCore(namespace: string)
    requires namespace != "" && namespace != "/"
    ensures CanonicalNamespace(namespace) == "/" + DropTrailingSlash(DropLeadingSlash(namespace))
  {
    var core := DropLeadingSlash(namespace);
    if StartsWithSlash(namespace) {
      assert namespace == "/" + core;
      assert EndsWithSlash(namespace) <==> EndsWithSlash(core);
    } else {
      assert core == namespace;
    }
  }

  /** The edge case of the root argument: "/" canonicalises to "", not "/". */
  lemma CanonicalOfRootIsEmpty()
    ensures CanonicalNamespace("/") == ""
    ensures CanonicalNamespace("") == "/"
  {
  }

  /** Only one trailing slash is ever removed. */
  lemma CanonicalDropsOneTrailingSlash(namespace: string)
    requires namespace != ""
    ensures EndsWithSlash(namespace) ==>
      CanonicalNamespace(namespace) + "/" ==
        (if StartsWithSlash(namespace) then namespace else "/" + namespace)
    ensures !EndsWithSlash(namespace) ==>
      CanonicalNamespace(namespace) ==
        (if StartsWithSlash(namespace) then namespace else "/" + namespace)
  {
    var rooted := if StartsWithSlash(namespace) then namespace else "/" + namespace;
    if EndsWithSlash(namespace) {
      assert rooted[|rooted| - 1] == '/';
      assert rooted[..|rooted| - 1] + "/" == rooted;
    }
  }

  /**
   * Canonicalising again changes nothing, except for results that are empty
   * or end with a slash (those get rewritten once more).
   */
  lemma CanonicalIdempotent(namespace: string)
    requires CanonicalNamespace(namespace) != ""
    requires !EndsWithSlash(CanonicalNamespace(namespace))
    ensures CanonicalNamespace(CanonicalNamespace(namespace)) == CanonicalNamespace(namespace)
  {
    var r := CanonicalNamespace(namespace);
    CanonicalOfRootIsEmpty();
    assert namespace != "" && namespace != "/";
    CanonicalIsRootedCore(namespace);
    assert StartsWithSlash(r);
  }

  /** Worked examples of the canonical form. */
  lemma CanonicalExamples()
    ensures CanonicalNamespace("ns") == "/ns"
    ensures CanonicalNamespace("/ns") == "/ns"
    ensures CanonicalNamespace("ns/") == "/ns"
    ensures CanonicalNamespace("/ns/") == "/ns"
    ensures CanonicalNamespace("ns//") == "/ns/"
    ensures CanonicalNamespace("//") == "/"
  {
    assert "/" + "ns" == "/ns";
    assert "/" + "ns/" == "/ns/";
    assert ("/ns/")[..3] == "/ns";
    assert "/" + "ns//" == "/ns//";
    assert ("/ns//")[..4] == "/ns/";
    assert ("//")[..1] == "/";
  }

  /** Worked examples of the service name. */
  lemma ServiceNameExamples()
    ensures ServiceName("") == "controller_manager"
    ensures ServiceName("ns") == "ns/controller_manager"
    ensures ServiceName("ns/") == "ns/controller_manager"
    ensures ServiceName("/ns") == "/ns/controller_manager"
    ensures ServiceName("/") == "/controller_manager"
  {
    assert !EndsWithSlash("ns") && !EndsWithSlash("/ns");
    assert EndsWithSlash("ns/") && EndsWithSlash("/");
    assert "ns" + "/" + ControllerManager == "ns/controller_manager";
    assert "ns/" + ControllerManager == "ns/controller_manager";
    assert "/ns" + "/" + ControllerManager == "/ns/controller_manager";
    assert "/" + ControllerManager == "/controller_manager";
  }

  /** `ServiceNameFollowsCanonical` for a namespace that ends with a slash. */
  lemma ServiceNameFollowsCanonicalSlash(namespace: string, lead: string)
    requires EndsWithSlash(namespace)
    requires lead == if StartsWithSlash(namespace) then "" else "/"
    ensures CanonicalNamespace(namespace) + "/" + ControllerManager == lead + ServiceName(namespace)
  {
    CanonicalDropsOneTrailingSlash(namespace);
    var canonical := CanonicalNamespace(namespace);
    assert canonical + "/" == lead + namespace;
    assert (canonical + "/") + ControllerManager == lead + (namespace + ControllerManager);
  }

  /** `ServiceNameFollowsCanonical` for a nonempty namespace without a trailing slash. */
  lemma ServiceNameFollowsCanonicalNoSlash(namespace: string, lead: string)
    requires namespace != "" && !EndsWithSlash(namespace)
    requires lead == if StartsWithSlash(namespace) then "" else "/"
    ensures CanonicalNamespace(namespace) + "/" + ControllerManager == lead + ServiceName(namespace)
  {
    CanonicalDropsOneTrailingSlash(namespace);
    var canonical := CanonicalNamespace(namespace);
    assert canonical == lead + namespace;
    assert canonical + "/" + ControllerManager == lead + (namespace + "/" + ControllerManager);
  }

  /**
   * The two rewrites agree: for a nonempty namespace, the service name is the
   * canonical namespace joined with "/controller_manager", up to the leading
   * slash that only the canonical form adds.
   */
  lemma ServiceNameFollowsCanonical(namespace: string)
    requires namespace != ""
    ensures CanonicalNamespace(namespace) + "/" + ControllerManager ==
      (if StartsWithSlash(namespace) then "" else "/") + ServiceName(namespace)
  {
    var lead := if StartsWithSlash(namespace) then "" else "/";
    if EndsWithSlash(namespace) {
      ServiceNameFollowsCanonicalSlash(namespace, lead);
    } else {
      ServiceNameFollowsCanonicalNoSlash(namespace, lead);
    }
  }

  /** A trailing slash on a nonempty namespace does not change the service. */
  lemma ServiceNameIgnoresTrailingSlash(namespace: string)
    requires namespace != "" && !EndsWithSlash(namespace)
    ensures ServiceName(namespace + "/") == ServiceName(namespace)
  {
    assert EndsWithSlash(namespace + "/");
    assert namespace + "/" + ControllerManager == namespace + ("/" + ControllerManager);
  }
}
