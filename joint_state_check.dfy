/**
 * `check_if_js_published`: the first JointState message received on the
 * topic must name the expected joints, compared by count and as sets.
 * The subscription is abstracted into the sequence of name lists of the
 * messages received before the wait ended; the wait succeeds iff that
 * sequence is nonempty.
 */
module JointStateCheck {
  import opened FoundFlags

  /** The outcome of the helper; every failure is an assertion error. */
  datatype JointStateVerdict =
    | JointStatePassed
    | TopicNotFound        // line 135: no message before the wait timed out
    | WrongJointCount      // line 138
    | WrongJointNames      // line 140

  /** Lines 138-140: equal length, and equal as sets. */
  predicate JointNamesMatch(published: seq<string>, expected: seq<string>)
  {
    |published| == |expected| && (set n | n in published) == (set n | n in expected)
  }

  /**
   * Lines 134-141: wait for a message, then check the name list of the first
   * one, the count before the names.
   */
  function CheckJointStatePublished(received: seq<seq<string>>, expected: seq<string>): (v: JointStateVerdict)
    ensures v == JointStatePassed <==> |received| > 0 && JointNamesMatch(received[0], expected)
    ensures v == TopicNotFound <==> received == []
    ensures v == WrongJointCount <==> received != [] && |received[0]| != |expected|
    ensures v == WrongJointNames ==> exists n :: (n in received[0]) != (n in expected)
  {
    if received == [] then TopicNotFound
    else
      var names := received[0];
      if |names| != |expected| then WrongJointCount
      else if (set n | n in names) != (set n | n in expected) then
        SetsDiffer(names, expected);
        WrongJointNames
      else JointStatePassed
  }

  /** Two lists with different sets of names disagree on some name. */
  lemma SetsDiffer(a: seq<string>, b: seq<string>)
    requires (set n | n in a) != (set n | n in b)
    ensures exists n :: (n in a) != (n in b)
  {
  }

  /** Order is irrelevant: any permutation of the expected names passes. */
  lemma PermutationMatches(published: seq<string>, expected: seq<string>)
    requires multiset(published) == multiset(expected)
    ensures JointNamesMatch(published, expected)
  {
    assert |published| == |multiset(published)| == |multiset(expected)| == |expected|;
    forall n ensures n in published <==> n in expected {
      assert n in published <==> n in multiset(published);
      assert n in expected <==> n in multiset(expected);
    }
  }

  /** Every name of a list without duplicates occurs exactly once. */
  lemma {:induction false} DistinctCount(s: seq<string>, n: string)
    requires NoDuplicates(s)
    ensures multiset(s)[n] == if n in s then 1 else 0
  {
    if s != [] {
      assert s == [s[0]] + s[1..];
      assert NoDuplicates(s[1..]);
      DistinctCount(s[1..], n);
      assert s[0] !in s[1..];
    }
  }

  /**
   * For lists without duplicates the helper is exactly the multiset
   * (permutation) comparison.
   */
  lemma DistinctMatchIsPermutation(published: seq<string>, expected: seq<string>)
    requires NoDuplicates(published) && NoDuplicates(expected)
    ensures JointNamesMatch(published, expected) <==> multiset(published) == multiset(expected)
  {
    if JointNamesMatch(published, expected) {
      var names := set m | m in published;
      assert names == set m | m in expected;
      forall n ensures multiset(published)[n] == multiset(expected)[n] {
        DistinctCount(published, n);
        DistinctCount(expected, n);
        assert n in published <==> n in names;
        assert n in expected <==> n in names;
      }
      assert multiset(published) == multiset(expected);
    }
    if multiset(published) == multiset(expected) {
      PermutationMatches(published, expected);
    }
  }

  /**
   * The helper is weaker than a permutation check: duplicates can mask a
   * difference in the names.
   */
  lemma DuplicatesMaskDifference()
    ensures JointNamesMatch(["a", "a", "b"], ["a", "b", "b"])
    ensures multiset(["a", "a", "b"]) != multiset(["a", "b", "b"])
  {
    var p, e := ["a", "a", "b"], ["a", "b", "b"];
    assert (set n | n in p) == {"a", "b"};
    assert (set n | n in e) == {"a", "b"};
    assert multiset(p)["a"] == 2;
    assert multiset(e)["a"] == 1;
  }

  /** Worked examples of the helper. */
  lemma JointStateExamples()
    ensures CheckJointStatePublished([["a", "b"]], ["b", "a"]) == JointStatePassed
    ensures CheckJointStatePublished([["a", "b"]], ["a", "b", "c"]) == WrongJointCount
    ensures CheckJointStatePublished([["a", "b"]], ["a", "c"]) == WrongJointNames
    ensures CheckJointStatePublished([], ["a"]) == TopicNotFound
  {
    assert (set n | n in ["a", "b"]) == {"a", "b"};
    assert (set n | n in ["b", "a"]) == {"a", "b"};
    assert (set n | n in ["a", "c"]) == {"a", "c"};
    assert "b" in (set n | n in ["a", "b"]);
  }
}
