/** n different places below n leave none out. */
module Permutations {
  lemma Origin(places: seq<nat>, p: nat) returns (i: nat)
    requires p < |places| && forall x :: 0 <= x < |places| ==> places[x] < |places|
    requires forall x, y :: 0 <= x < y < |places| ==> places[x] != places[y]
    ensures i < |places| && places[i] == p
  {
    if exists x :: 0 <= x < |places| && places[x] == p {
      i :| 0 <= i < |places| && places[i] == p;
    } else {
      DistinctCount(places, Below(|places|) - {p});
      assert false;
    }
  }

  lemma {:induction false} DistinctCount(places: seq<nat>, s: set<nat>)
    requires forall x :: 0 <= x < |places| ==> places[x] in s
    requires forall x, y :: 0 <= x < y < |places| ==> places[x] != places[y]
    ensures |places| <= |s|
    decreases |places|
  {
    if places != [] {
      var n := |places| - 1;
      DistinctCount(places[..n], s - {places[n]});
    }
  }

  ghost function Below(n: nat): (s: set<nat>)
    ensures |s| == n && forall x: nat :: x in s <==> x < n
  {
    if n == 0 then {} else Below(n - 1) + {n - 1}
  }
}
