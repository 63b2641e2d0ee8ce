/** Stable ordering of a table by small keys, as sort_syms and update_gnu_hash arrange symbols. */
module BucketOrder {
  import opened Relocations

  /** The positions below k whose key is c, in order. */
  ghost function Members(keys: seq<nat>, c: nat, k: nat): (r: seq<nat>)
    requires k <= |keys|
    ensures forall j :: 0 <= j < |r| ==> r[j] < k && keys[r[j]] == c
  {
    if k == 0 then [] else Members(keys, c, k - 1) + (if keys[k - 1] == c then [k - 1] else [])
  }

  /** The positions with keys below c, key by key. */
  ghost function OrderTo(keys: seq<nat>, c: nat): (r: seq<nat>)
    ensures forall j :: 0 <= j < |r| ==> r[j] < |keys| && keys[r[j]] < c
  {
    if c == 0 then [] else OrderTo(keys, c - 1) + Members(keys, c - 1, |keys|)
  }

  /** Where the element at i goes. */
  ghost function Place(keys: seq<nat>, i: nat): nat
    requires i < |keys|
  {
    |OrderTo(keys, keys[i])| + |Members(keys, keys[i], i)|
  }

  ghost function Gather<T>(s: seq<T>, order: seq<nat>): (r: seq<T>)
    requires forall j :: 0 <= j < |order| ==> order[j] < |s|
    ensures |r| == |order| && forall j :: 0 <= j < |r| ==> r[j] == s[order[j]]
  {
    seq(|order|, j requires 0 <= j < |order| => s[order[j]])
  }

  ghost predicate Places(tr: seq<nat>, keys: seq<nat>) {
    |tr| == |keys| && forall i :: 0 <= i < |keys| ==> tr[i] == Place(keys, i)
  }

  lemma {:induction false} MembersGrow(keys: seq<nat>, c: nat, j: nat, k: nat)
    requires j <= k <= |keys|
    ensures Members(keys, c, j) <= Members(keys, c, k)
    decreases k
  {
    if j < k {
      MembersGrow(keys, c, j, k - 1);
    }
  }

  /** The element at i stands among the members of its class after the earlier ones. */
  lemma MemberRank(keys: seq<nat>, i: nat, k: nat)
    requires i < k <= |keys|
    ensures var c := keys[i];
      |Members(keys, c, i)| < |Members(keys, c, k)| && Members(keys, c, k)[|Members(keys, c, i)|] == i
  {
    MembersGrow(keys, keys[i], i + 1, k);
  }

  lemma {:induction false} OrderGrows(keys: seq<nat>, c: nat, d: nat)
    requires c <= d
    ensures OrderTo(keys, c) <= OrderTo(keys, d)
    decreases d
  {
    hide Members;
    if c < d {
      OrderGrows(keys, c, d - 1);
      assert OrderTo(keys, d) == OrderTo(keys, d - 1) + Members(keys, d - 1, |keys|);
    }
  }

  lemma PlaceInOrder(keys: seq<nat>, i: nat, m: nat)
    requires i < |keys| && keys[i] < m
    ensures Place(keys, i) < |OrderTo(keys, m)| && OrderTo(keys, m)[Place(keys, i)] == i
  {
    hide Members;
    MemberRank(keys, i, |keys|);
    OrderGrows(keys, keys[i] + 1, m);
    assert OrderTo(keys, keys[i] + 1) == OrderTo(keys, keys[i]) + Members(keys, keys[i], |keys|);
    assert OrderTo(keys, keys[i] + 1)[Place(keys, i)] == i;
  }

  ghost function CountBelow(keys: seq<nat>, m: nat, k: nat): (n: nat)
    requires k <= |keys|
    ensures n <= k
  {
    if k == 0 then 0 else CountBelow(keys, m, k - 1) + (if keys[k - 1] < m then 1 else 0)
  }

  lemma {:induction false} CountNext(keys: seq<nat>, m: nat, k: nat)
    requires k <= |keys|
    ensures CountBelow(keys, m + 1, k) == CountBelow(keys, m, k) + |Members(keys, m, k)|
  {
    if k > 0 {
      CountNext(keys, m, k - 1);
    }
  }

  lemma {:induction false} CountNone(keys: seq<nat>, k: nat)
    requires k <= |keys|
    ensures CountBelow(keys, 0, k) == 0
  {
    if k > 0 {
      CountNone(keys, k - 1);
    }
  }

  lemma {:induction false} CountAll(keys: seq<nat>, m: nat, k: nat)
    requires k <= |keys| && forall i :: 0 <= i < |keys| ==> keys[i] < m
    ensures CountBelow(keys, m, k) == k
  {
    if k > 0 {
      CountAll(keys, m, k - 1);
    }
  }

  lemma {:induction false} OrderLength(keys: seq<nat>, m: nat)
    ensures |OrderTo(keys, m)| == CountBelow(keys, m, |keys|)
  {
    CountNone(keys, |keys|);
    if m > 0 {
      OrderLength(keys, m - 1);
      CountNext(keys, m - 1, |keys|);
    }
  }

  /** The order is a permutation of the table, and Place tells where each element went. */
  lemma OrderMoves<T(!new)>(s: seq<T>, keys: seq<nat>, m: nat, tr: seq<nat>)
    requires |s| == |keys| && (forall i :: 0 <= i < |keys| ==> keys[i] < m) && Places(tr, keys)
    ensures |OrderTo(keys, m)| == |s| && Moved(s, Gather(s, OrderTo(keys, m)), tr)
  {
    OrderLength(keys, m);
    CountAll(keys, m, |keys|);
    forall i | 0 <= i < |keys|
      ensures tr[i] < |s| && OrderTo(keys, m)[tr[i]] == i
    {
      PlaceInOrder(keys, i, m);
    }
  }

  /** Elements of one class keep their relative order, and lower classes come first. */
  lemma PlaceMonotone(keys: seq<nat>, i: nat, j: nat)
    requires i < |keys| && j < |keys| && (keys[i] < keys[j] || (keys[i] == keys[j] && i < j))
    ensures Place(keys, i) < Place(keys, j)
  {
    hide Members;
    MemberRank(keys, i, |keys|);
    if keys[i] < keys[j] {
      OrderGrows(keys, keys[i] + 1, keys[j]);
      assert OrderTo(keys, keys[i] + 1) == OrderTo(keys, keys[i]) + Members(keys, keys[i], |keys|);
      hide OrderTo;
    } else {
      MemberRank(keys, i, j);
    }
  }
}
