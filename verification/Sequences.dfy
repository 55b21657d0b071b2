/** Sequences without repetition, as the queues and free lists use them. */
module Sequences {
  ghost predicate Distinct(s: seq<nat>) { forall i, j :: 0 <= i < j < |s| ==> s[i] != s[j] }

  function Without(s: seq<nat>, i: nat): seq<nat>
    requires i < |s|
  {
    s[..i] + s[i + 1..]
  }

  lemma WithoutMembers(s: seq<nat>, i: nat)
    requires Distinct(s) && i < |s|
    ensures Distinct(Without(s, i)) && forall t :: t in Without(s, i) <==> t in s && t != s[i]
  {
    var r := Without(s, i);
    assert forall j :: 0 <= j < |r| ==> r[j] == s[if j < i then j else j + 1];
    forall t | t in s && t != s[i] ensures t in r {
      var j :| 0 <= j < |s| && s[j] == t;
      assert t == r[if j < i then j else j - 1];
    }
  }

  lemma SnocDistinct(s: seq<nat>, t: nat)
    requires Distinct(s) && t !in s
    ensures Distinct(s + [t]) && forall u :: u in s + [t] <==> u in s || u == t
  {}
}
