/**
 * The `found` dictionary of `check_controllers_running`: one boolean flag per
 * expected controller name, its initial value, the "all found" verdict and
 * the list of names the failure message reports.
 */
module FoundFlags {

  /** For each expected name, whether it has been seen yet (lines 75, 97). */
  type FoundMap = map<string, bool>

  /** The freshly built dictionary of lines 75 and 97: every expected name, none seen. */
  function Initial(cnames: seq<string>): (found: FoundMap)
    ensures forall c :: c in found <==> c in cnames
    ensures forall c :: c in found ==> !found[c]
  {
    map c | c in cnames :: false
  }

  /** Every flag of the dictionary is set: the loop exit and verdict test of lines 87, 93, 107 and 117. */
  predicate AllFound(found: FoundMap)
  {
    forall c :: c in found ==> found[c]
  }

  predicate NoDuplicates(s: seq<string>)
  {
    forall i, j :: 0 <= i < j < |s| ==> s[i] != s[j]
  }

  /** The position at which `c` first occurs in `s`. */
  function FirstIndex(s: seq<string>, c: string): (i: nat)
    requires c in s
    ensures i < |s| && s[i] == c && c !in s[..i]
  {
    if s[0] == c then 0
    else
      var k := FirstIndex(s[1..], c);
      assert s[..k + 1] == [s[0]] + s[1..][..k];
      k + 1
  }

  /** Appending to a list does not move the first occurrence of a name already in it. */
  lemma FirstIndexExtend(s: seq<string>, x: string, c: string)
    requires c in s
    ensures FirstIndex(s + [x], c) == FirstIndex(s, c)
  {
    var i, j := FirstIndex(s + [x], c), FirstIndex(s, c);
    assert (s + [x])[j] == c;
    assert (s + [x])[..i] == s[..i] by {
      assert i <= j;
    }
  }

  /**
   * `names` lists names of `cnames` in the order in which they first occur
   * there.
   */
  predicate InFirstOccurrenceOrder(names: seq<string>, cnames: seq<string>)
  {
    (forall k :: 0 <= k < |names| ==> names[k] in cnames) &&
    forall i, j :: 0 <= i < j < |names| ==> FirstIndex(cnames, names[i]) < FirstIndex(cnames, names[j])
  }

  /**
   * The names of `cnames`, each once: the keys of a dictionary built from
   * `cnames` (line 75), in the order in which it lists them.
   */
  function Distinct(cnames: seq<string>): (d: seq<string>)
    ensures forall c :: c in d <==> c in cnames
    ensures NoDuplicates(d)
  {
    if cnames == [] then []
    else
      var prefix := Distinct(cnames[..|cnames| - 1]);
      var last := cnames[|cnames| - 1];
      assert forall c :: c in cnames <==> c in cnames[..|cnames| - 1] || c == last;
      if last in prefix then prefix else prefix + [last]
  }

  /** A dictionary lists its keys in the order in which they were first inserted. */
  lemma {:induction false} DistinctInFirstOccurrenceOrder(cnames: seq<string>)
    ensures InFirstOccurrenceOrder(Distinct(cnames), cnames)
  {
    if cnames != [] {
      var init := cnames[..|cnames| - 1];
      var prefix := Distinct(init);
      var last := cnames[|cnames| - 1];
      DistinctInFirstOccurrenceOrder(init);
      assert cnames == init + [last];
      forall c | c in init ensures FirstIndex(cnames, c) == FirstIndex(init, c) {
        FirstIndexExtend(init, last, c);
      }
      if last !in prefix {
        assert FirstIndex(cnames, last) == |init| by {
          assert forall k :: 0 <= k < |init| ==> cnames[k] == init[k];
        }
        var d := prefix + [last];
        forall i, j | 0 <= i < j < |d| ensures FirstIndex(cnames, d[i]) < FirstIndex(cnames, d[j]) {
          assert d[i] == prefix[i];
          if j < |prefix| { assert d[j] == prefix[j]; }
        }
      }
    }
  }

  /** The names of `keys`, in order, whose flag is still false. */
  function Unset(keys: seq<string>, found: FoundMap): (m: seq<string>)
    ensures forall c :: c in m <==> c in keys && c in found && !found[c]
    ensures NoDuplicates(keys) ==> NoDuplicates(m)
  {
    if keys == [] then []
    else
      var rest := Unset(keys[1..], found);
      assert forall c :: c in keys <==> c == keys[0] || c in keys[1..];
      if keys[0] in found && !found[keys[0]] then [keys[0]] + rest else rest
  }

  /** Putting a name before a list keeps the order when it occurs first in `cnames`. */
  lemma ConsInOrder(x: string, rest: seq<string>, cnames: seq<string>)
    requires x in cnames && InFirstOccurrenceOrder(rest, cnames)
    requires forall k :: 0 <= k < |rest| ==> FirstIndex(cnames, x) < FirstIndex(cnames, rest[k])
    ensures InFirstOccurrenceOrder([x] + rest, cnames)
  {
    var m := [x] + rest;
    forall i, j | 0 <= i < j < |m| ensures FirstIndex(cnames, m[i]) < FirstIndex(cnames, m[j]) {
      assert m[j] == rest[j - 1];
      if 0 < i { assert m[i] == rest[i - 1]; }
    }
  }

  /** Filtering keeps the order of the names that remain. */
  lemma {:induction false} UnsetKeepsOrder(keys: seq<string>, found: FoundMap, cnames: seq<string>)
    requires InFirstOccurrenceOrder(keys, cnames)
    ensures InFirstOccurrenceOrder(Unset(keys, found), cnames)
  {
    if keys != [] {
      var tail := keys[1..];
      var rest := Unset(tail, found);
      assert forall k :: 0 <= k < |tail| ==> tail[k] == keys[k + 1];
      UnsetKeepsOrder(tail, found, cnames);
      if keys[0] in found && !found[keys[0]] {
        forall k | 0 <= k < |rest| ensures FirstIndex(cnames, keys[0]) < FirstIndex(cnames, rest[k]) {
          assert rest[k] in tail;
          var t :| 0 <= t < |tail| && tail[t] == rest[k];
          assert keys[t + 1] == rest[k];
        }
        ConsInOrder(keys[0], rest, cnames);
      }
    }
  }

  /**
   * The list of names the failure reports of lines 93-95 and 117-119 give:
   * each expected name whose flag is still false, exactly once, in the
   * dictionary's key order.
   */
  function Missing(cnames: seq<string>, found: FoundMap): (m: seq<string>)
    ensures forall c :: c in m <==> c in cnames && c in found && !found[c]
    ensures NoDuplicates(m)
  {
    Unset(Distinct(cnames), found)
  }

  /** The report lists the unset names in the order in which they first occur in `cnames`. */
  lemma MissingInFirstOccurrenceOrder(cnames: seq<string>, found: FoundMap)
    ensures InFirstOccurrenceOrder(Missing(cnames, found), cnames)
  {
    DistinctInFirstOccurrenceOrder(cnames);
    UnsetKeepsOrder(Distinct(cnames), found, cnames);
  }

  /** A list without duplicates has as many elements as it has distinct names. */
  lemma {:induction false} NoDuplicatesCard(s: seq<string>)
    requires NoDuplicates(s)
    ensures |set c | c in s| == |s|
  {
    if s != [] {
      var rest := s[1..];
      assert NoDuplicates(rest);
      NoDuplicatesCard(rest);
      assert (set c | c in s) == {s[0]} + (set c | c in rest);
      assert s[0] !in rest;
    }
  }

  /** A list without duplicates whose only member is `x` is `[x]`. */
  lemma OnlyName(m: seq<string>, x: string)
    requires NoDuplicates(m)
    requires forall c :: c in m <==> c == x
    ensures m == [x]
  {
    NoDuplicatesCard(m);
    assert (set c | c in m) == {x};
    assert m[0] in m;
  }

  /** The report is empty exactly when the verdict passes. */
  lemma MissingEmptyIffAllFound(cnames: seq<string>, found: FoundMap)
    requires forall c :: c in found <==> c in cnames
    ensures Missing(cnames, found) == [] <==> AllFound(found)
  {
    var m := Missing(cnames, found);
    if !AllFound(found) {
      var c :| c in found && !found[c];
      assert c in m;
    }
    if m != [] {
      assert m[0] in m;
    }
  }

  /**
   * Worked example: a repeated name is reported once, and the unset names
   * come in the order in which they first occur in `cnames`.
   */
  lemma MissingExample()
    ensures Missing(["gripper", "arm", "gripper"], map["arm" := false, "gripper" := false]) == ["gripper", "arm"]
  {
    var s := ["gripper", "arm", "gripper"];
    var found := map["arm" := false, "gripper" := false];
    assert s[..2][..1] == ["gripper"];
    assert ["gripper"][..0] == [];
    assert Distinct(["gripper"]) == ["gripper"];
    assert Distinct(s[..2]) == ["gripper", "arm"];
    assert Distinct(s) == ["gripper", "arm"];
    assert Unset(["arm"], found) == ["arm"];
    assert Unset(["gripper", "arm"], found) == ["gripper", "arm"];
  }
}
