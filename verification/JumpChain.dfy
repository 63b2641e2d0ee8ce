/** Lists of pending jumps, threaded through the displacement fields of the code (i386-gen.c). */
module JumpChain {
  import opened Bytes

  /** The field at t holds the place of the next field, and so on through sites; 0 ends it. */
  ghost predicate Chain(s: seq<byte>, t: nat, sites: seq<nat>)
    decreases |sites|
  {
    if sites == [] then t == 0
    else t == sites[0] != 0 && t + 4 <= |s| && Chain(s, Read32(s, t), sites[1..])
  }

  /** Where the jump whose displacement field is at p goes. */
  function Target(s: seq<byte>, p: nat): nat
    requires p + 4 <= |s|
  {
    Wrap32(p + 4 + Read32(s, p))
  }

  ghost predicate SameField(s: seq<byte>, r: seq<byte>, p: nat) {
    p + 4 <= |s| && p + 4 <= |r| && Read32(r, p) == Read32(s, p)
  }

  lemma {:induction false} ChainSameFields(s: seq<byte>, r: seq<byte>, t: nat, sites: seq<nat>)
    requires Chain(s, t, sites) && forall i :: 0 <= i < |sites| ==> SameField(s, r, sites[i])
    ensures Chain(r, t, sites)
    decreases |sites|
  {
    if sites != [] {
      ChainSameFields(s, r, Read32(s, t), sites[1..]);
    }
  }

  /** The list from its k-th field on. */
  lemma {:induction false} ChainFrom(s: seq<byte>, t: nat, sites: seq<nat>, k: nat)
    requires Chain(s, t, sites) && k < |sites|
    ensures Chain(s, sites[k], sites[k..])
    decreases k
  {
    if k > 0 {
      ChainFrom(s, Read32(s, t), sites[1..], k - 1);
      assert sites[1..][k - 1..] == sites[k..];
    } else {
      assert sites[0..] == sites;
    }
  }

  /** A field is stored in the last place of one list: the two lists become one. */
  lemma {:induction false} ChainJoins(s: seq<byte>, r: seq<byte>, n: nat, front: seq<nat>, t: nat, back: seq<nat>)
    requires Chain(s, n, front) && front != [] && Chain(r, t, back)
    requires forall i :: 0 <= i < |front| - 1 ==> SameField(s, r, front[i])
    requires front[|front| - 1] + 4 <= |r| && Read32(r, front[|front| - 1]) == t
    ensures Chain(r, n, front + back)
    decreases |front|
  {
    assert (front + back)[1..] == front[1..] + back;
    if |front| > 1 {
      ChainJoins(s, r, Read32(s, n), front[1..], t, back);
    } else {
      assert front[1..] + back == back;
    }
  }

  lemma {:induction false} ChainUnique(s: seq<byte>, t: nat, a: seq<nat>, b: seq<nat>)
    requires Chain(s, t, a) && Chain(s, t, b)
    ensures a == b
    decreases |a|
  {
    if a != [] && b != [] {
      ChainUnique(s, Read32(s, t), a[1..], b[1..]);
      assert a == [t] + a[1..] && b == [t] + b[1..];
    }
  }

  /** A list that ends visits no field twice. */
  lemma ChainDistinct(s: seq<byte>, t: nat, sites: seq<nat>, i: nat, j: nat)
    requires Chain(s, t, sites) && i < j < |sites|
    ensures sites[i] != sites[j]
  {
    ChainFrom(s, t, sites, i);
    ChainFrom(s, t, sites, j);
    if sites[i] == sites[j] {
      ChainUnique(s, sites[i], sites[i..], sites[j..]);
    }
  }

  /** The displacement gsym_addr stores makes the jump land on a. */
  lemma PutTarget(s: seq<byte>, p: nat, a: int)
    requires p + 4 <= |s|
    ensures Target(Put32(s, p, a - p - 4), p) == Wrap32(a)
  {
    ReadPut(s, p, a - p - 4);
    var d := Wrap32(a - p - 4);
    WrapCongruent(p + 4 + d, a, (p + 4 + d - a) / WORD);
  }

  // ---------------------------------------------------------------- bookkeeping

  /** The fields emitted so far: pending lists by their head, the head each pending field
      belongs to, and the destination of every resolved jump. */
  datatype Jumps = Jumps(sites: set<nat>, lists: map<nat, seq<nat>>, owner: map<nat, nat>, targets: map<nat, nat>) {
    /** Fields do not overlap and lie below ind; each is pending or resolved. */
    ghost predicate Fields(ind: nat) {
      (forall p :: p in sites ==> 0 < p && p + 4 <= ind) &&
      (forall p, q :: p in sites && q in sites && p != q ==> Apart(p, q)) &&
      sites == owner.Keys + targets.Keys && owner.Keys !! targets.Keys
    }

    /** Each pending field is on exactly one list. */
    ghost predicate Lists() {
      0 !in lists && (forall h :: h in lists ==> lists[h] != [] && lists[h][0] == h) &&
      (forall h, i :: h in lists && 0 <= i < |lists[h]| ==> lists[h][i] in owner && owner[lists[h][i]] == h) &&
      (forall p :: p in owner ==> owner[p] in lists && p in lists[owner[p]])
    }

    ghost predicate Separate(ind: nat) {
      Fields(ind) && Lists()
    }

    ghost predicate Wired(s: seq<byte>, ind: nat) {
      ind <= |s| && Separate(ind) &&
      (forall h :: h in lists ==> Chain(s, h, lists[h])) &&
      (forall p :: p in targets ==> Target(s, p) == targets[p])
    }

    /** The fields of the list headed by t, where 0 heads the empty list. */
    ghost function List(t: nat): seq<nat>
      requires t == 0 || t in lists
    {
      if t == 0 then [] else lists[t]
    }

    /** A new jump with field r takes over the list t. */
    ghost function Cons(r: nat, t: nat): Jumps
      requires t == 0 || t in lists
    {
      Jumps(sites + {r}, (lists - {t})[r := [r] + List(t)],
            (map p | p in owner :: if p in List(t) then r else owner[p])[r := r], targets)
    }

    /** The list t is hung behind the list n. */
    ghost function Append(n: nat, t: nat): Jumps
      requires n in lists && (t == 0 || t in lists)
    {
      Jumps(sites, (lists - {t})[n := lists[n] + List(t)],
            map p | p in owner :: if p in List(t) then n else owner[p], targets)
    }

    /** Every jump on the list t goes to a. */
    ghost function Resolve(t: nat, a: nat): Jumps
      requires t == 0 || t in lists
    {
      Jumps(sites, lists - {t}, owner - (set p | p in List(t)), targets + (map p | p in List(t) :: a))
    }
  }

  /** Code that agrees on every field keeps all lists and destinations. */
  lemma WiredSameFields(j: Jumps, s: seq<byte>, r: seq<byte>, ind: nat, ind': nat)
    requires j.Wired(s, ind) && ind <= ind' <= |r|
    requires forall p :: p in j.sites ==> SameField(s, r, p)
    ensures j.Wired(r, ind')
  {
    forall h | h in j.lists ensures Chain(r, h, j.lists[h]) {
      ChainSameFields(s, r, h, j.lists[h]);
    }
  }

  lemma WiredSamePrefix(j: Jumps, s: seq<byte>, r: seq<byte>, ind: nat, ind': nat)
    requires j.Wired(s, ind) && ind <= ind' <= |r| && r[..ind] == s[..ind]
    ensures j.Wired(r, ind')
  {
    assert forall i :: 0 <= i < ind ==> r[i] == r[..ind][i] == s[i];
    WiredSameFields(j, s, r, ind, ind');
  }

  lemma OnList(j: Jumps, ind: nat, h: nat, i: nat)
    requires j.Separate(ind) && h in j.lists && i < |j.lists[h]|
    ensures var p := j.lists[h][i]; p in j.owner && j.owner[p] == h && p in j.sites && 0 < p && p + 4 <= ind
  {
  }

  lemma TwoSites(j: Jumps, ind: nat, p: nat, q: nat)
    requires j.Separate(ind) && p in j.sites && q in j.sites && p != q
    ensures Apart(p, q) && p + 4 <= ind && q + 4 <= ind
  {
  }

  lemma ConsSeparate(j: Jumps, ind: nat, r: nat, t: nat)
    requires j.Separate(ind) && ind <= r && 0 < r && (t == 0 || t in j.lists)
    ensures j.Cons(r, t).Separate(r + 4)
  {
    forall h | h in j.lists ensures h in j.owner {
      assert j.lists[h][0] in j.owner;
    }
    assert r !in j.owner;
    ConsLists(j, r, t);
    hide Jumps.Lists;
    ConsFields(j, ind, r, t);
  }

  lemma ConsFields(j: Jumps, ind: nat, r: nat, t: nat)
    requires j.Fields(ind) && ind <= r && 0 < r && (t == 0 || t in j.lists)
    ensures j.Cons(r, t).Fields(r + 4)
  {
    assert j.Cons(r, t).owner.Keys == j.owner.Keys + {r};
  }

  lemma ConsLists(j: Jumps, r: nat, t: nat)
    requires j.Lists() && 0 < r && r !in j.lists && r !in j.owner && (t == 0 || t in j.lists)
    ensures j.Cons(r, t).Lists()
  {
    var k, back := j.Cons(r, t), j.List(t);
    assert k.lists[r] == [r] + back;
    forall h, i | h in k.lists && 0 <= i < |k.lists[h]|
      ensures k.lists[h][i] in k.owner && k.owner[k.lists[h][i]] == h
    {
      if h == r && i > 0 {
        assert k.lists[h][i] == back[i - 1];
      }
    }
    ConsOwners(j, r, t);
  }

  lemma ConsOwners(j: Jumps, r: nat, t: nat)
    requires j.Lists() && r !in j.lists && r !in j.owner && (t == 0 || t in j.lists)
    ensures var k := j.Cons(r, t); forall p :: p in k.owner ==> k.owner[p] in k.lists && p in k.lists[k.owner[p]]
  {
    var k, back := j.Cons(r, t), j.List(t);
    assert k.lists[r] == [r] + back;
    assert k.lists[r][0] == r && forall p :: p in back ==> p in k.lists[r];
    forall p | p in k.owner && p != r ensures k.owner[p] in k.lists && p in k.lists[k.owner[p]] {
      var h := j.owner[p];
      assert p in j.lists[h];
      if h != t {
        NotOnOther(j, p, t);
        assert h in k.lists && k.lists[h] == j.lists[h];
      }
    }
  }

  lemma NotOnOther(j: Jumps, p: nat, t: nat)
    requires j.Lists() && p in j.owner && j.owner[p] != t && (t == 0 || t in j.lists)
    ensures p !in j.List(t)
  {
  }

  lemma ChainCons(s: seq<byte>, r: nat, t: nat, back: seq<nat>)
    requires 0 < r && r + 4 <= |s| && Read32(s, r) == t && Chain(s, t, back)
    ensures Chain(s, r, [r] + back)
  {
    assert ([r] + back)[1..] == back;
  }

  lemma ConsWired(j: Jumps, s: seq<byte>, ind: nat, r: nat, t: nat)
    requires j.Wired(s, ind) && ind <= r && 0 < r && r + 4 <= |s|
    requires (t == 0 || t in j.lists) && Read32(s, r) == t
    ensures j.Cons(r, t).Wired(s, r + 4)
  {
    hide Jumps.Separate, Read32, Target, Chain;
    ConsSeparate(j, ind, r, t);
    ChainNil(s);
    ChainCons(s, r, t, j.List(t));
    InSites(j, ind);
  }

  lemma InSites(j: Jumps, ind: nat)
    requires j.Separate(ind)
    ensures forall p :: p in j.targets ==> p in j.sites && 0 < p && p + 4 <= ind
  {
  }

  lemma AppendLists(j: Jumps, n: nat, t: nat)
    requires j.Lists() && n in j.lists && (t == 0 || t in j.lists) && n != t
    ensures j.Append(n, t).Lists()
  {
    var k, front, back := j.Append(n, t), j.lists[n], j.List(t);
    assert k.lists[n] == front + back;
    forall h, i | h in k.lists && 0 <= i < |k.lists[h]|
      ensures k.lists[h][i] in k.owner && k.owner[k.lists[h][i]] == h
    {
      if h == n && i >= |front| {
        assert k.lists[h][i] == back[i - |front|];
      } else {
        assert k.lists[h][i] == j.lists[h][i] && j.owner[j.lists[h][i]] == h;
        assert k.lists[h][i] !in back;
      }
    }
    forall p | p in k.owner ensures k.owner[p] in k.lists && p in k.lists[k.owner[p]] {
      var h := j.owner[p];
      assert p in j.lists[h];
      if h == t {
        assert p in back;
      } else {
        assert p !in back;
      }
    }
  }

  lemma AppendSeparate(j: Jumps, ind: nat, n: nat, t: nat)
    requires j.Separate(ind) && n in j.lists && (t == 0 || t in j.lists) && n != t
    ensures j.Append(n, t).Separate(ind)
  {
    AppendLists(j, n, t);
    hide Jumps.Lists;
    AppendFields(j, ind, n, t);
  }

  lemma AppendFields(j: Jumps, ind: nat, n: nat, t: nat)
    requires j.Fields(ind) && n in j.lists && (t == 0 || t in j.lists)
    ensures j.Append(n, t).Fields(ind)
  {
    assert j.Append(n, t).owner.Keys == j.owner.Keys;
  }

  lemma AppendWired(j: Jumps, s: seq<byte>, ind: nat, n: nat, t: nat)
    requires j.Wired(s, ind) && n in j.lists && (t == 0 || t in j.lists) && n != t && t < WORD
    requires |j.lists[n]| > 0 && j.lists[n][|j.lists[n]| - 1] + 4 <= |s|
    ensures j.Append(n, t).Wired(Put32(s, j.lists[n][|j.lists[n]| - 1], t), ind)
  {
    hide Jumps.Separate, Read32, Put32, Target, Chain;
    AppendSeparate(j, ind, n, t);
    var front, back := j.lists[n], j.List(t);
    var last := front[|front| - 1];
    var r := Put32(s, last, t);
    OnList(j, ind, n, |front| - 1);
    InSites(j, ind);
    ReadPut(s, last, t);
    forall p | p in j.sites && p != last ensures SameField(s, r, p) {
      TwoSites(j, ind, p, last);
    }
    forall i | 0 <= i < |front| - 1 ensures SameField(s, r, front[i]) {
      ChainDistinct(s, n, front, i, |front| - 1);
      OnList(j, ind, n, i);
    }
    forall h | h in j.lists && h != n ensures Chain(r, h, j.lists[h]) {
      forall i | 0 <= i < |j.lists[h]| ensures SameField(s, r, j.lists[h][i]) {
        OnList(j, ind, h, i);
      }
      ChainSameFields(s, r, h, j.lists[h]);
    }
    ChainNil(r);
    ChainJoins(s, r, n, front, t, back);
    forall p | p in j.targets ensures Target(r, p) == Target(s, p) {
      NotPending(j, ind, p, last);
      SameTarget(s, r, p);
    }
  }

  lemma NotPending(j: Jumps, ind: nat, p: nat, q: nat)
    requires j.Separate(ind) && p in j.targets && q in j.owner
    ensures p != q
  {
  }

  lemma SameTarget(s: seq<byte>, r: seq<byte>, p: nat)
    requires SameField(s, r, p)
    ensures Target(r, p) == Target(s, p)
  {
  }

  lemma ChainNil(s: seq<byte>)
    ensures Chain(s, 0, [])
  {
  }

  ghost predicate Fit(s: seq<byte>, sites: seq<nat>) {
    forall i :: 0 <= i < |sites| ==> sites[i] + 4 <= |s|
  }

  /** Byte x belongs to none of the fields. */
  ghost predicate Outside(x: int, sites: seq<nat>) {
    forall i :: 0 <= i < |sites| ==> !(sites[i] <= x < sites[i] + 4)
  }

  /** gsym_addr on the bytes: the fields of one list, first to last. */
  ghost function PatchAll(s: seq<byte>, sites: seq<nat>, a: int): (r: seq<byte>)
    requires Fit(s, sites)
    ensures |r| == |s|
    decreases |sites|
  {
    if sites == [] then s
    else
      var n := |sites| - 1;
      Put32(PatchAll(s, sites[..n], a), sites[n], a - sites[n] - 4)
  }

  /** Each field of the list jumps to a, and no byte outside the fields changes. */
  lemma {:induction false} PatchAllTargets(s: seq<byte>, sites: seq<nat>, a: int)
    requires Fit(s, sites)
    requires forall i, k :: 0 <= i < k < |sites| ==> Apart(sites[i], sites[k])
    ensures forall i :: 0 <= i < |sites| ==> Target(PatchAll(s, sites, a), sites[i]) == Wrap32(a)
    ensures forall x :: 0 <= x < |s| && Outside(x, sites) ==> PatchAll(s, sites, a)[x] == s[x]
    decreases |sites|
  {
    hide Target, Put32, Wrap32;
    if sites != [] {
      var n := |sites| - 1;
      var front := sites[..n];
      PatchAllTargets(s, front, a);
      var m := PatchAll(s, front, a);
      PatchOne(m, sites[n], a);
      var r := PatchAll(s, sites, a);
      hide PatchAll;
      forall i | 0 <= i < n ensures Target(r, sites[i]) == Wrap32(a) {
        assert front[i] == sites[i];
        SameTarget(m, r, sites[i]);
      }
      forall x | 0 <= x < |s| && Outside(x, sites) ensures r[x] == s[x] {
        assert Outside(x, front);
        assert !(sites[n] <= x < sites[n] + 4);
      }
    }
  }

  lemma PatchOne(s: seq<byte>, p: nat, a: int)
    requires p + 4 <= |s|
    ensures var r := Put32(s, p, a - p - 4);
      Target(r, p) == Wrap32(a) &&
      (forall x :: 0 <= x < |s| && !(p <= x < p + 4) ==> r[x] == s[x]) &&
      (forall q: nat :: q + 4 <= |s| && Apart(p, q) ==> SameField(s, r, q))
  {
    PutTarget(s, p, a);
    ReadPut(s, p, a - p - 4);
  }

  lemma SameBytes(s: seq<byte>, r: seq<byte>, p: nat)
    requires p + 4 <= |s| && |r| == |s| && forall x :: p <= x < p + 4 ==> r[x] == s[x]
    ensures SameField(s, r, p)
  {
  }

  lemma ResolveSeparate(j: Jumps, ind: nat, t: nat, a: nat)
    requires j.Separate(ind) && (t == 0 || t in j.lists)
    ensures j.Resolve(t, a).Separate(ind)
  {
    ResolveFields(j, ind, t, a);
    hide Jumps.Fields;
    ResolveLists(j, t, a);
  }

  lemma ResolveFields(j: Jumps, ind: nat, t: nat, a: nat)
    requires j.Separate(ind) && (t == 0 || t in j.lists)
    ensures j.Resolve(t, a).Fields(ind)
  {
    forall p | p in j.List(t) ensures p in j.owner {
    }
    hide Jumps.Lists;
  }

  lemma ResolveLists(j: Jumps, t: nat, a: nat)
    requires j.Lists() && (t == 0 || t in j.lists)
    ensures j.Resolve(t, a).Lists()
  {
    forall p | p in j.owner && j.owner[p] != t ensures p !in j.List(t) {
      NotOnOther(j, p, t);
    }
  }

  lemma ResolveWired(j: Jumps, s: seq<byte>, ind: nat, t: nat, a: int)
    requires j.Wired(s, ind) && (t == 0 || t in j.lists) && Fit(s, j.List(t))
    ensures j.Resolve(t, Wrap32(a)).Wired(PatchAll(s, j.List(t), a), ind)
  {
    hide Jumps.Separate, Read32, Wrap32, Put32, Target, PatchAll, Chain;
    ResolveSeparate(j, ind, t, Wrap32(a));
    InSites(j, ind);
    var sites := j.List(t);
    forall i, k | 0 <= i < k < |sites| ensures Apart(sites[i], sites[k]) {
      OnList(j, ind, t, i);
      OnList(j, ind, t, k);
      ChainDistinct(s, t, sites, i, k);
      TwoSites(j, ind, sites[i], sites[k]);
    }
    PatchAllTargets(s, sites, a);
    var r, k := PatchAll(s, sites, a), j.Resolve(t, Wrap32(a));
    forall p | p in j.sites && p !in sites && p + 4 <= ind ensures SameField(s, r, p) {
      forall x | p <= x < p + 4 ensures Outside(x, sites) {
        forall i | 0 <= i < |sites| ensures !(sites[i] <= x < sites[i] + 4) {
          OnList(j, ind, t, i);
          TwoSites(j, ind, p, sites[i]);
        }
      }
      SameBytes(s, r, p);
    }
    forall h | h in k.lists ensures Chain(r, h, k.lists[h]) {
      forall i | 0 <= i < |j.lists[h]| ensures SameField(s, r, j.lists[h][i]) {
        OnList(j, ind, h, i);
        OffList(j, ind, h, i, t);
      }
      ChainSameFields(s, r, h, j.lists[h]);
    }
    forall p | p in k.targets ensures Target(r, p) == k.targets[p] {
      if p in sites {
        var i :| 0 <= i < |sites| && sites[i] == p;
      } else {
        SameTarget(s, r, p);
      }
    }
  }

  lemma OffList(j: Jumps, ind: nat, h: nat, i: nat, t: nat)
    requires j.Separate(ind) && h in j.lists && i < |j.lists[h]| && (t == 0 || t in j.lists) && h != t
    ensures j.lists[h][i] !in j.List(t)
  {
  }
}
