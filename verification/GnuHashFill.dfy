/** create_gnu_hash and update_gnu_hash (tccelf.c): the dynamic symbols are put in bucket order and
    the section filled to match. */
module GnuHashFill {
  import opened Bits
  import opened Symbols
  import opened Relocations
  import opened BucketOrder
  import opened GnuHash
  import opened FileMerge
  import opened Permutations
  import SymbolTable

  /** Class 0 for undefined symbols, class b + 1 for the symbols of bucket b. */
  function ClassOf(s: Sym, nb: nat): (c: nat)
    requires nb > 0
    ensures c <= nb
  {
    if s.Defined() then Hash(s.name) % nb + 1 else 0
  }

  ghost function Classes(t: seq<Sym>, nb: nat): (keys: seq<nat>)
    requires nb > 0
    ensures |keys| == |t| && forall i :: 0 <= i < |t| ==> keys[i] == ClassOf(t[i], nb) <= nb
  {
    seq(|t|, i requires 0 <= i < |t| => ClassOf(t[i], nb))
  }

  ghost function CountDefined(t: seq<Sym>, k: nat): (n: nat)
    requires k <= |t|
    ensures n <= k
  {
    if k == 0 then 0 else CountDefined(t, k - 1) + (if t[k - 1].Defined() then 1 else 0)
  }

  lemma {:induction false} UndefinedRest(t: seq<Sym>, nb: nat, k: nat)
    requires nb > 0 && k <= |t|
    ensures |Members(Classes(t, nb), 0, k)| + CountDefined(t, k) == k
  {
    if k > 0 {
      UndefinedRest(t, nb, k - 1);
    }
  }

  /** A section with room for the defined symbols of t and nothing in it. */
  ghost predicate Empty(g: Section, t: seq<Sym>) {
    g.Sized() && g.symoffset + |g.chain| == |t| && |g.chain| == CountDefined(t, |t|) &&
    forall b :: 0 <= b < g.nbuckets ==> g.buckets[b] == 0
  }

  /** create_gnu_hash: the number of defined symbols decides all sizes; the Bloom filter is a power
      of two with more than two bits to spare for each symbol. */
  method CreateGnuHash(t: seq<Sym>) returns (g: Section)
    ensures Empty(g, t)
    ensures var ndef := CountDefined(t, |t|);
      g.nbuckets == ndef / 4 + 1 && g.bloomShift == 5 && PowerOfTwo(g.bloomSize) &&
      ndef < 4 * g.bloomSize && (g.bloomSize == 1 || 4 * (g.bloomSize / 2) <= ndef)
  {
    hide PowerOfTwo, Hash;
    var ndef := 0;
    for i := 0 to |t|
      invariant ndef == CountDefined(t, i)
    {
      ndef := ndef + (if t[i].shndx != SHN_UNDEF then 1 else 0);
    }
    var nbuckets := ndef / 4 + 1;
    var bloomSize := 1;
    PowerOfOne();
    while ndef >= bloomSize * 4
      invariant bloomSize >= 1 && PowerOfTwo(bloomSize)
      invariant bloomSize == 1 || 4 * (bloomSize / 2) <= ndef
      decreases ndef - bloomSize
    {
      PowerDoubles(bloomSize);
      bloomSize := bloomSize * 2;
    }
    g := Section(nbuckets, |t| - ndef, bloomSize, 5,
                 seq(bloomSize, _ => 0), seq(nbuckets, _ => 0), seq(ndef, _ => 0));
  }

  lemma GatherAppend<T>(s: seq<T>, a: seq<nat>, b: seq<nat>)
    requires forall j :: 0 <= j < |a| ==> a[j] < |s|
    requires forall j :: 0 <= j < |b| ==> b[j] < |s|
    ensures (forall j :: 0 <= j < |a + b| ==> (a + b)[j] < |s|) && Gather(s, a + b) == Gather(s, a) + Gather(s, b)
  {
  }

  // ---------------------------------------------------------------- the passes of update_gnu_hash

  /** The first pass: undefined symbols are copied, the others hashed. */
  method CopyUndefined(t: seq<Sym>, nb: nat) returns (newSyms: seq<Sym>, oldToNew: seq<nat>, hash: seq<nat>)
    requires nb > 0
    ensures |oldToNew| == |hash| == |t| && newSyms == Gather(t, OrderTo(Classes(t, nb), 1))
    ensures forall i :: 0 <= i < |t| && Classes(t, nb)[i] == 0 ==> oldToNew[i] == Place(Classes(t, nb), i)
    ensures forall i :: 0 <= i < |t| && t[i].Defined() ==> hash[i] == Hash(t[i].name)
  {
    hide Hash;
    ghost var keys := Classes(t, nb);
    newSyms, oldToNew, hash := [], seq(|t|, _ => 0), seq(|t|, _ => 0);
    for i := 0 to |t|
      invariant |oldToNew| == |hash| == |t| && newSyms == Gather(t, Members(keys, 0, i))
      invariant forall j :: 0 <= j < i && keys[j] == 0 ==> oldToNew[j] == Place(keys, j)
      invariant forall j :: 0 <= j < i && t[j].Defined() ==> hash[j] == Hash(t[j].name)
    {
      if t[i].shndx == SHN_UNDEF {
        assert OrderTo(keys, 0) == [];
        oldToNew := oldToNew[i := |newSyms|];
        newSyms := newSyms + [t[i]];
      } else {
        var h := ComputeHash(t[i].name);
        hash := hash[i := h];
      }
    }
    assert OrderTo(keys, 1) == Members(keys, 0, |t|);
  }

  /** The linked lists of the bucket pass: first, last and next visit the members in order. */
  ghost predicate Listed(first: seq<int>, last: seq<int>, next: seq<nat>, keys: seq<nat>, nb: nat, k: nat) {
    k <= |keys| == |next| && |first| == |last| == nb && forall b :: 0 <= b < nb ==>
      ListedAt(first, last, next, keys, b, k)
  }

  ghost predicate ListedAt(first: seq<int>, last: seq<int>, next: seq<nat>, keys: seq<nat>, b: nat, k: nat)
    requires k <= |keys| == |next| && b < |first| == |last|
  {
    var m := Members(keys, b + 1, k);
    (if m == [] then first[b] == -1 else first[b] == m[0] && last[b] == m[|m| - 1]) &&
    forall j :: 0 <= j < |m| - 1 ==> next[m[j]] == m[j + 1]
  }

  lemma {:induction false} MembersAscend(keys: seq<nat>, c: nat, k: nat)
    requires k <= |keys|
    ensures forall i, j :: 0 <= i < j < |Members(keys, c, k)| ==> Members(keys, c, k)[i] < Members(keys, c, k)[j]
  {
    if k > 0 {
      MembersAscend(keys, c, k - 1);
    }
  }

  /** Appending symbol i to the list of its bucket. */
  lemma ListedNext(first: seq<int>, last: seq<int>, next: seq<nat>, keys: seq<nat>, nb: nat, i: nat)
    requires Listed(first, last, next, keys, nb, i) && i < |keys| && keys[i] <= nb
    ensures keys[i] == 0 ==> Listed(first, last, next, keys, nb, i + 1)
    ensures keys[i] > 0 ==> var b := keys[i] - 1;
      if first[b] == -1 then Listed(first[b := i], last[b := i], next, keys, nb, i + 1)
      else 0 <= last[b] < i && Listed(first, last[b := i], next[last[b] := i], keys, nb, i + 1)
  {
    var k := i + 1;
    var b := if keys[i] > 0 then keys[i] - 1 else nb;
    var grows := keys[i] > 0 && first[b] != -1;
    if keys[i] > 0 {
      assert ListedAt(first, last, next, keys, b, i);
    }
    var first' := if keys[i] > 0 && first[b] == -1 then first[b := i] else first;
    var last' := if keys[i] > 0 then last[b := i] else last;
    var next' := if grows then next[last[b] := i] else next;
    hide Members, ListedAt;
    forall d | 0 <= d < nb ensures ListedAt(first', last', next', keys, d, k) {
      assert ListedAt(first, last, next, keys, d, i);
      if d == b {
        ListedSame(first, last, next, keys, d, i);
      } else {
        if grows {
          LastMember(first, last, next, keys, b, i);
        }
        ListedOther(first, last, next, first', last', next', keys, d, i);
      }
    }
  }

  lemma LastMember(first: seq<int>, last: seq<int>, next: seq<nat>, keys: seq<nat>, b: nat, i: nat)
    requires i <= |keys| == |next| && b < |first| == |last| && ListedAt(first, last, next, keys, b, i) && first[b] != -1
    ensures 0 <= last[b] < i && keys[last[b]] == b + 1
  {
  }

  lemma ListedOther(first: seq<int>, last: seq<int>, next: seq<nat>, first': seq<int>, last': seq<int>,
                    next': seq<nat>, keys: seq<nat>, d: nat, i: nat)
    requires i < |keys| == |next| == |next'| && d < |first| == |last| == |first'| == |last'|
    requires ListedAt(first, last, next, keys, d, i) && keys[i] != d + 1
    requires first'[d] == first[d] && last'[d] == last[d]
    requires forall x :: 0 <= x < i && keys[x] == d + 1 ==> next'[x] == next[x]
    ensures ListedAt(first', last', next', keys, d, i + 1)
  {
    assert Members(keys, d + 1, i + 1) == Members(keys, d + 1, i);
  }

  lemma ListedSame(first: seq<int>, last: seq<int>, next: seq<nat>, keys: seq<nat>, b: nat, i: nat)
    requires i < |keys| == |next| && b < |first| == |last|
    requires ListedAt(first, last, next, keys, b, i) && keys[i] == b + 1
    ensures if first[b] == -1 then ListedAt(first[b := i], last[b := i], next, keys, b, i + 1)
      else 0 <= last[b] < i && ListedAt(first, last[b := i], next[last[b] := i], keys, b, i + 1)
  {
    var m := Members(keys, b + 1, i);
    MembersAscend(keys, b + 1, i);
    assert Members(keys, b + 1, i + 1) == m + [i];
  }

  /** The bucket pass. */
  method BuildBuckets(t: seq<Sym>, hash: seq<nat>, nb: nat) returns (first: seq<int>, last: seq<int>, next: seq<nat>)
    requires nb > 0 && |hash| == |t| && forall i :: 0 <= i < |t| && t[i].Defined() ==> hash[i] == Hash(t[i].name)
    ensures Listed(first, last, next, Classes(t, nb), nb, |t|)
  {
    hide Hash, Members, ListedAt;
    ghost var keys := Classes(t, nb);
    first, last, next := seq(nb, _ => -1), seq(nb, _ => 0), seq(|t|, _ => 0);
    ListedStart(first, last, next, keys, nb);
    for i := 0 to |t|
      invariant Listed(first, last, next, keys, nb, i)
    {
      ListedNext(first, last, next, keys, nb, i);
      if t[i].shndx != SHN_UNDEF {
        var bucket := hash[i] % nb;
        if first[bucket] == -1 {
          first, last := first[bucket := i], last[bucket := i];
        } else {
          next := next[last[bucket] := i];
          last := last[bucket := i];
        }
      }
    }
  }

  lemma ListedStart(first: seq<int>, last: seq<int>, next: seq<nat>, keys: seq<nat>, nb: nat)
    requires |first| == |last| == nb && |next| == |keys| && forall b :: 0 <= b < nb ==> first[b] == -1
    ensures Listed(first, last, next, keys, nb, 0)
  {
  }

  // ---------------------------------------------------------------- filling

  /** Position p holds the last symbol of its class. */
  ghost predicate Boundary(keys: seq<nat>, c: nat, p: nat) {
    p + 1 == |OrderTo(keys, c + 1)|
  }

  ghost function ChainWord(s: Sym, nb: nat, keys: seq<nat>, p: nat): nat
    requires nb > 0
  {
    Hash(s.name) / 2 * 2 + (if Boundary(keys, ClassOf(s, nb), p) then 1 else 0)
  }

  /** Everything the section must hold once the classes below c are done. */
  ghost predicate ChainOk(g: Section, newSyms: seq<Sym>, keys: seq<nat>) {
    g.Sized() && |newSyms| <= g.symoffset + |g.chain| &&
    forall p :: g.symoffset <= p < |newSyms| ==> g.chain[p - g.symoffset] == ChainWord(newSyms[p], g.nbuckets, keys, p)
  }

  ghost predicate BucketsOk(g: Section, keys: seq<nat>, c: nat) {
    g.Sized() && forall b :: 0 <= b < g.nbuckets ==>
      g.buckets[b] == if b + 1 < c && Members(keys, b + 1, |keys|) != [] then |OrderTo(keys, b + 1)| else 0
  }

  ghost predicate BloomOk(g: Section, newSyms: seq<Sym>) {
    g.Sized() && forall p :: g.symoffset <= p < |newSyms| ==> g.BloomHas(Hash(newSyms[p].name))
  }

  ghost predicate PlacesBelow(oldToNew: seq<nat>, keys: seq<nat>, c: nat) {
    |oldToNew| == |keys| && forall i :: 0 <= i < |keys| && keys[i] < c ==> oldToNew[i] == Place(keys, i)
  }

  /** One symbol of the fill pass: its chain word, without the end mark, and its Bloom bits. */
  function Put(g: Section, q: nat, h: nat): (r: Section)
    requires g.Sized() && g.symoffset <= q < g.symoffset + |g.chain|
    ensures r.Sized() && r.symoffset == g.symoffset && r.nbuckets == g.nbuckets && r.buckets == g.buckets
    ensures r.chain == g.chain[q - g.symoffset := h / 2 * 2]
  {
    g.(chain := g.chain[q - g.symoffset := h / 2 * 2]).BloomAdd(h)
  }

  lemma PutBloom(g: Section, newSyms: seq<Sym>, s: Sym)
    requires g.Sized() && g.symoffset <= |newSyms| < g.symoffset + |g.chain| && BloomOk(g, newSyms)
    ensures BloomOk(Put(g, |newSyms|, Hash(s.name)), newSyms + [s])
  {
    hide Hash, Section.BloomHas, Section.BloomAdd;
    var h := Hash(s.name);
    var mid := g.(chain := g.chain[|newSyms| - g.symoffset := h / 2 * 2]);
    forall k: nat ensures mid.BloomHas(k) == g.BloomHas(k) {
      SameBloom(g, mid, k);
    }
    forall p | g.symoffset <= p < |newSyms + [s]| ensures Put(g, |newSyms|, h).BloomHas(Hash((newSyms + [s])[p].name)) {
      BloomAdds(mid, h, Hash((newSyms + [s])[p].name));
    }
  }

  lemma SameBloom(g: Section, r: Section, k: nat)
    requires g.Sized() && r.Sized() && r.bloom == g.bloom && r.bloomSize == g.bloomSize && r.bloomShift == g.bloomShift
    ensures r.BloomHas(k) == g.BloomHas(k)
  {
  }

  /** Chain words written so far for the class under way carry no end mark yet. */
  ghost predicate ChainSoFar(g: Section, newSyms: seq<Sym>, keys: seq<nat>, start: nat) {
    g.Sized() && start <= |newSyms| <= g.symoffset + |g.chain| &&
    (forall p :: g.symoffset <= p < start ==> g.chain[p - g.symoffset] == ChainWord(newSyms[p], g.nbuckets, keys, p)) &&
    (forall p :: g.symoffset <= p && start <= p < |newSyms| ==>
      g.chain[p - g.symoffset] == Hash(newSyms[p].name) / 2 * 2)
  }

  lemma ClassRoom(t: seq<Sym>, nb: nat, c: nat)
    requires nb > 0 && c <= nb
    ensures |OrderTo(Classes(t, nb), c + 1)| == |OrderTo(Classes(t, nb), c)| + |Members(Classes(t, nb), c, |t|)| <= |t|
    ensures c > 0 ==> |OrderTo(Classes(t, nb), 1)| <= |OrderTo(Classes(t, nb), c)|
  {
    OrderLength(Classes(t, nb), c + 1);
    if c > 0 {
      OrderGrows(Classes(t, nb), 1, c);
    }
  }

  /** What the fill pass has done in one bucket after j of its members. */
  ghost predicate Filling(t: seq<Sym>, nb: nat, b: nat, j: nat, newSyms: seq<Sym>, oldToNew: seq<nat>, g: Section)
    requires nb > 0
  {
    var keys := Classes(t, nb);
    var order, m := OrderTo(keys, b + 1), Members(keys, b + 1, |t|);
    j <= |m| && b < nb && g.Sized() && g.nbuckets == nb && g.symoffset == |OrderTo(keys, 1)| &&
    g.symoffset + |g.chain| == |t| == |oldToNew| && newSyms == Gather(t, order + m[..j]) &&
    PlacesBelow(oldToNew, keys, b + 1) &&
    (forall i :: 0 <= i < j ==> oldToNew[m[i]] == |order| + i) &&
    ChainSoFar(g, newSyms, keys, |order|) && BloomOk(g, newSyms)
  }

  lemma PlacesLength(oldToNew: seq<nat>, keys: seq<nat>, c: nat)
    requires PlacesBelow(oldToNew, keys, c)
    ensures |oldToNew| == |keys|
  {
  }

  lemma FillStarts(t: seq<Sym>, nb: nat, b: nat, newSyms: seq<Sym>, oldToNew: seq<nat>, g: Section)
    requires nb > 0 && b < nb && g.Sized() && g.nbuckets == nb && g.symoffset == |OrderTo(Classes(t, nb), 1)|
    requires g.symoffset + |g.chain| == |t| && newSyms == Gather(t, OrderTo(Classes(t, nb), b + 1))
    requires PlacesBelow(oldToNew, Classes(t, nb), b + 1) && ChainOk(g, newSyms, Classes(t, nb)) && BloomOk(g, newSyms)
    ensures Filling(t, nb, b, 0, newSyms, oldToNew, g)
  {
    hide Hash, BloomOk, PlacesBelow, Members, OrderTo, Classes, ChainWord, Section.Sized;
    var order := OrderTo(Classes(t, nb), b + 1);
    assert order + Members(Classes(t, nb), b + 1, |t|)[..0] == order;
    assert |Classes(t, nb)| == |oldToNew| by {
      PlacesLength(oldToNew, Classes(t, nb), b + 1);
    }
  }

  lemma FillStep(t: seq<Sym>, nb: nat, b: nat, j: nat, newSyms: seq<Sym>, oldToNew: seq<nat>, g: Section)
    requires nb > 0 && Filling(t, nb, b, j, newSyms, oldToNew, g) && j < |Members(Classes(t, nb), b + 1, |t|)|
    ensures var cur := Members(Classes(t, nb), b + 1, |t|)[j];
      cur < |t| && t[cur].Defined() && g.symoffset <= |newSyms| < g.symoffset + |g.chain| &&
      Filling(t, nb, b, j + 1, newSyms + [t[cur]], oldToNew[cur := |newSyms|], Put(g, |newSyms|, Hash(t[cur].name)))
  {
    hide Hash, BloomOk, ChainSoFar, Put, Gather, PlacesBelow, Members, OrderTo;
    var keys := Classes(t, nb);
    var order, m := OrderTo(keys, b + 1), Members(keys, b + 1, |t|);
    var cur := m[j];
    ClassRoom(t, nb, b + 1);
    GatherStep(t, order, m, j);
    PutBloom(g, newSyms, t[cur]);
    PutChain(g, newSyms, keys, |order|, t[cur]);
    PlacesStep(oldToNew, keys, b + 1, j, |order|);
    assert keys[cur] == b + 1;
  }

  lemma GatherStep(t: seq<Sym>, order: seq<nat>, m: seq<nat>, j: nat)
    requires j < |m| && (forall i :: 0 <= i < |order| ==> order[i] < |t|) && forall i :: 0 <= i < |m| ==> m[i] < |t|
    ensures Gather(t, order + m[..j + 1]) == Gather(t, order + m[..j]) + [t[m[j]]]
  {
    assert order + m[..j + 1] == (order + m[..j]) + [m[j]];
    GatherAppend(t, order + m[..j], [m[j]]);
    assert Gather(t, [m[j]]) == [t[m[j]]];
  }

  lemma PlacesStep(oldToNew: seq<nat>, keys: seq<nat>, c: nat, j: nat, base: nat)
    requires PlacesBelow(oldToNew, keys, c) && j < |Members(keys, c, |keys|)|
    requires forall i :: 0 <= i < j ==> oldToNew[Members(keys, c, |keys|)[i]] == base + i
    ensures var m := Members(keys, c, |keys|);
      PlacesBelow(oldToNew[m[j] := base + j], keys, c) &&
      forall i :: 0 <= i < j + 1 ==> oldToNew[m[j] := base + j][m[i]] == base + i
  {
    MembersAscend(keys, c, |keys|);
    hide Place;
  }

  lemma PutChain(g: Section, newSyms: seq<Sym>, keys: seq<nat>, start: nat, s: Sym)
    requires ChainSoFar(g, newSyms, keys, start) && g.symoffset <= |newSyms| < g.symoffset + |g.chain|
    ensures ChainSoFar(Put(g, |newSyms|, Hash(s.name)), newSyms + [s], keys, start)
  {
    hide Hash, Put, ChainWord;
  }

  lemma MarkChain(g: Section, newSyms: seq<Sym>, keys: seq<nat>, start: nat, c: nat)
    requires ChainSoFar(g, newSyms, keys, start) && g.symoffset <= start < |newSyms| == |OrderTo(keys, c + 1)|
    requires forall p :: start <= p < |newSyms| ==> ClassOf(newSyms[p], g.nbuckets) == c
    ensures var at := |newSyms| - 1 - g.symoffset;
      ChainOk(g.(chain := g.chain[at := g.chain[at] / 2 * 2 + 1]), newSyms, keys)
  {
    hide Hash, OrderTo, ClassOf;
  }

  lemma MarkBloom(g: Section, newSyms: seq<Sym>, r: Section)
    requires BloomOk(g, newSyms) && r == g.(chain := r.chain)
    ensures BloomOk(r, newSyms)
  {
    hide Hash, Section.BloomHas;
    forall p | g.symoffset <= p < |newSyms| ensures r.BloomHas(Hash(newSyms[p].name)) {
      SameBloom(g, r, Hash(newSyms[p].name));
    }
  }

  lemma FillEnds(t: seq<Sym>, nb: nat, b: nat, newSyms: seq<Sym>, oldToNew: seq<nat>, g: Section)
    requires nb > 0 && |Members(Classes(t, nb), b + 1, |t|)| > 0
    requires Filling(t, nb, b, |Members(Classes(t, nb), b + 1, |t|)|, newSyms, oldToNew, g)
    ensures var keys := Classes(t, nb);
      var at := |newSyms| - 1 - g.symoffset;
      newSyms == Gather(t, OrderTo(keys, b + 2)) && PlacesBelow(oldToNew, keys, b + 2) &&
      0 <= at < |g.chain| &&
      ChainOk(g.(chain := g.chain[at := g.chain[at] / 2 * 2 + 1]), newSyms, keys) &&
      BloomOk(g.(chain := g.chain[at := g.chain[at] / 2 * 2 + 1]), newSyms)
  {
    hide Hash, BloomOk, ChainSoFar, ChainOk, Members, OrderTo, PlacesBelow, Gather, ClassOf, Place;
    var keys := Classes(t, nb);
    var order, m := OrderTo(keys, b + 1), Members(keys, b + 1, |t|);
    ClassRoom(t, nb, b + 1);
    OrderNext(keys, b + 1);
    assert m[..|m|] == m;
    EndPlaces(keys, b + 1, oldToNew);
    forall p | |order| <= p < |newSyms| ensures ClassOf(newSyms[p], nb) == b + 1 {
      assert newSyms[p] == t[(order + m)[p]] && (order + m)[p] == m[p - |order|];
      assert keys[m[p - |order|]] == b + 1;
    }
    MarkChain(g, newSyms, keys, |order|, b + 1);
    var at := |newSyms| - 1 - g.symoffset;
    MarkBloom(g, newSyms, g.(chain := g.chain[at := g.chain[at] / 2 * 2 + 1]));
  }

  lemma OrderNext(keys: seq<nat>, c: nat)
    ensures OrderTo(keys, c + 1) == OrderTo(keys, c) + Members(keys, c, |keys|)
  {
  }

  lemma EndPlaces(keys: seq<nat>, c: nat, oldToNew: seq<nat>)
    requires PlacesBelow(oldToNew, keys, c)
    requires forall i :: 0 <= i < |Members(keys, c, |keys|)| ==>
      oldToNew[Members(keys, c, |keys|)[i]] == |OrderTo(keys, c)| + i
    ensures PlacesBelow(oldToNew, keys, c + 1)
  {
    forall x | 0 <= x < |keys| && keys[x] == c ensures oldToNew[x] == Place(keys, x) {
      MemberRank(keys, x, |keys|);
    }
  }

  /** The inner loop of update_gnu_hash: one bucket, along its list. */
  method FillBucket(t: seq<Sym>, hash: seq<nat>, first: nat, last: int, next: seq<nat>, ghost b: nat,
                    newSyms0: seq<Sym>, oldToNew0: seq<nat>, g0: Section)
    returns (newSyms: seq<Sym>, oldToNew: seq<nat>, g: Section)
    requires g0.Sized() && |next| == |hash| == |t| && Filling(t, g0.nbuckets, b, 0, newSyms0, oldToNew0, g0)
    requires forall i :: 0 <= i < |t| && t[i].Defined() ==> hash[i] == Hash(t[i].name)
    requires var m := Members(Classes(t, g0.nbuckets), b + 1, |t|);
      m != [] && first == m[0] && last == m[|m| - 1] && forall j :: 0 <= j < |m| - 1 ==> next[m[j]] == m[j + 1]
    ensures var keys := Classes(t, g0.nbuckets);
      newSyms == Gather(t, OrderTo(keys, b + 2)) && PlacesBelow(oldToNew, keys, b + 2) &&
      ChainOk(g, newSyms, keys) && BloomOk(g, newSyms)
    ensures g.symoffset == g0.symoffset && g.nbuckets == g0.nbuckets && |g.chain| == |g0.chain| &&
      g.buckets == g0.buckets
    ensures g.Sized()
  {
    hide Hash, Put, Filling, BloomOk, ChainOk, PlacesBelow, OrderTo, Members, Gather, Classes;
    ghost var nb := g0.nbuckets;
    ghost var m, j: nat := Members(Classes(t, nb), b + 1, |t|), 0;
    newSyms, oldToNew, g := newSyms0, oldToNew0, g0;
    var cur := first;
    MembersAscend(Classes(t, nb), b + 1, |t|);
    FillingFacts(t, nb, b, 0, newSyms, oldToNew, g);
    while true
      invariant 0 <= j < |m| && cur == m[j] && Filling(t, nb, b, j, newSyms, oldToNew, g)
      invariant g.Sized() && g.symoffset == g0.symoffset && g.nbuckets == nb
      invariant |g.chain| == |g0.chain| && g.buckets == g0.buckets && |oldToNew| == |t|
      decreases |m| - j
    {
      FillStep(t, nb, b, j, newSyms, oldToNew, g);
      var q := |newSyms|;
      oldToNew := oldToNew[cur := q];
      newSyms := newSyms + [t[cur]];
      g := Put(g, q, hash[cur]);
      j := j + 1;
      if cur == last {
        break;
      }
      cur := next[cur];
    }
    assert j == |m|;
    FillEnds(t, nb, b, newSyms, oldToNew, g);
    var at := |newSyms| - 1 - g.symoffset;
    g := g.(chain := g.chain[at := g.chain[at] / 2 * 2 + 1]);
  }

  lemma FillingFacts(t: seq<Sym>, nb: nat, b: nat, j: nat, newSyms: seq<Sym>, oldToNew: seq<nat>, g: Section)
    requires nb > 0 && Filling(t, nb, b, j, newSyms, oldToNew, g)
    ensures |oldToNew| == |t|
  {
  }

  /** The state of the fill pass before bucket b. */
  ghost predicate Filled(t: seq<Sym>, nb: nat, b: nat, newSyms: seq<Sym>, oldToNew: seq<nat>, g: Section)
    requires nb > 0
  {
    var keys := Classes(t, nb);
    b <= nb && g.Sized() && g.nbuckets == nb && g.symoffset == |OrderTo(keys, 1)| && g.symoffset + |g.chain| == |t| &&
    newSyms == Gather(t, OrderTo(keys, b + 1)) && PlacesBelow(oldToNew, keys, b + 1) &&
    ChainOk(g, newSyms, keys) && BloomOk(g, newSyms) && BucketsOk(g, keys, b + 1)
  }

  lemma BucketsNext(g: Section, r: Section, keys: seq<nat>, b: nat)
    requires BucketsOk(g, keys, b + 1) && b < g.nbuckets && r.Sized() && r.nbuckets == g.nbuckets
    requires r.buckets == if Members(keys, b + 1, |keys|) == [] then g.buckets
      else g.buckets[b := |OrderTo(keys, b + 1)|]
    ensures BucketsOk(r, keys, b + 2)
  {
    hide OrderTo, Members;
    forall d | 0 <= d < r.nbuckets
      ensures r.buckets[d] == if d + 1 < b + 2 && Members(keys, d + 1, |keys|) != [] then |OrderTo(keys, d + 1)| else 0
    {
      assert g.buckets[d] == if d + 1 < b + 1 && Members(keys, d + 1, |keys|) != [] then |OrderTo(keys, d + 1)| else 0;
    }
  }

  lemma ChainKeeps(g: Section, r: Section, newSyms: seq<Sym>, keys: seq<nat>)
    requires ChainOk(g, newSyms, keys) && BloomOk(g, newSyms) && r.Sized()
    requires r == g.(buckets := r.buckets)
    ensures ChainOk(r, newSyms, keys) && BloomOk(r, newSyms)
  {
    hide Hash, Section.BloomHas, ChainWord;
    forall p | g.symoffset <= p < |newSyms| ensures r.BloomHas(Hash(newSyms[p].name)) {
      SameBloom(g, r, Hash(newSyms[p].name));
    }
  }

  /** The loop of update_gnu_hash over the buckets. */
  method FillTable(t: seq<Sym>, hash: seq<nat>, first: seq<int>, last: seq<int>, next: seq<nat>,
                   newSyms0: seq<Sym>, oldToNew0: seq<nat>, g0: Section)
    returns (newSyms: seq<Sym>, oldToNew: seq<nat>, g: Section)
    requires g0.Sized() && |hash| == |t| && Filled(t, g0.nbuckets, 0, newSyms0, oldToNew0, g0)
    requires forall i :: 0 <= i < |t| && t[i].Defined() ==> hash[i] == Hash(t[i].name)
    requires Listed(first, last, next, Classes(t, g0.nbuckets), g0.nbuckets, |t|)
    ensures Filled(t, g0.nbuckets, g0.nbuckets, newSyms, oldToNew, g) && g.symoffset == g0.symoffset
  {
    hide Hash, BloomOk, ChainOk, PlacesBelow, OrderTo, Members, Gather, Classes, BucketsOk, Filling;
    newSyms, oldToNew, g := newSyms0, oldToNew0, g0;
    var nb := g0.nbuckets;
    ghost var keys := Classes(t, nb);
    for b := 0 to nb
      invariant g.symoffset == g0.symoffset && Filled(t, nb, b, newSyms, oldToNew, g)
    {
      var cur := first[b];
      assert ListedAt(first, last, next, keys, b, |t|);
      OrderNext(keys, b + 1);
      ghost var before := g;
      if cur != -1 {
        g := g.(buckets := g.buckets[b := |newSyms|]);
        ChainKeeps(before, g, newSyms, keys);
        FillStarts(t, nb, b, newSyms, oldToNew, g);
        newSyms, oldToNew, g := FillBucket(t, hash, cur, last[b], next, b, newSyms, oldToNew, g);
      } else {
        EmptyClass(keys, b + 1, oldToNew);
      }
      BucketsNext(before, g, keys, b);
    }
  }

  lemma EmptyClass(keys: seq<nat>, c: nat, oldToNew: seq<nat>)
    requires Members(keys, c, |keys|) == [] && PlacesBelow(oldToNew, keys, c)
    ensures PlacesBelow(oldToNew, keys, c + 1)
  {
    EndPlaces(keys, c, oldToNew);
  }

  // ---------------------------------------------------------------- the result

  /** The class of the element at place p. */
  lemma {:induction false} KeyAt(keys: seq<nat>, m: nat, p: nat)
    requires p < |OrderTo(keys, m)|
    ensures var c := keys[OrderTo(keys, m)[p]]; |OrderTo(keys, c)| <= p < |OrderTo(keys, c + 1)|
    decreases m
  {
    hide Members;
    var before := OrderTo(keys, m - 1);
    assert OrderTo(keys, m) == before + Members(keys, m - 1, |keys|);
    hide OrderTo;
    if p < |before| {
      KeyAt(keys, m - 1, p);
      assert OrderTo(keys, m)[p] == before[p];
    }
  }

  /** Class c of the table u occupies the places st[c]..st[c + 1]. */
  ghost predicate Arranged(u: seq<Sym>, nb: nat, st: seq<nat>)
    requires nb > 0
  {
    |st| == nb + 2 && (forall c, d :: 0 <= c <= d < |st| ==> st[c] <= st[d]) && st[nb + 1] == |u| &&
    (forall p :: 0 <= p < |u| ==> st[ClassOf(u[p], nb)] <= p < st[ClassOf(u[p], nb) + 1])
  }

  ghost function Starts(keys: seq<nat>, nb: nat): (st: seq<nat>)
    ensures |st| == nb + 2 && forall c :: 0 <= c < |st| ==> st[c] == |OrderTo(keys, c)|
  {
    seq(nb + 2, c requires 0 <= c < nb + 2 => |OrderTo(keys, c)|)
  }

  lemma FilledArranged(t: seq<Sym>, nb: nat)
    requires nb > 0
    ensures Arranged(Gather(t, OrderTo(Classes(t, nb), nb + 1)), nb, Starts(Classes(t, nb), nb))
  {
    hide Hash, OrderTo;
    var keys, st := Classes(t, nb), Starts(Classes(t, nb), nb);
    forall c, d | 0 <= c <= d < |st| ensures st[c] <= st[d] {
      OrderGrows(keys, c, d);
    }
    var u := Gather(t, OrderTo(keys, nb + 1));
    forall p | 0 <= p < |u| ensures st[ClassOf(u[p], nb)] <= p < st[ClassOf(u[p], nb) + 1] {
      KeyAt(keys, nb + 1, p);
    }
  }

  lemma Ordered(st: seq<nat>, c: nat, d: nat)
    requires c < |st| && d < |st| && forall i, j :: 0 <= i <= j < |st| ==> st[i] <= st[j]
    ensures c <= d ==> st[c] <= st[d]
  {
  }

  lemma ArrangedAt(u: seq<Sym>, nb: nat, st: seq<nat>, c: nat, p: nat)
    requires nb > 0 && Arranged(u, nb, st) && c <= nb && st[c] <= p < st[c + 1]
    ensures p < |u| && ClassOf(u[p], nb) == c
  {
    assert st[c + 1] <= st[nb + 1];
    var d := ClassOf(u[p], nb);
    Ordered(st, d + 1, c);
    Ordered(st, c + 1, d);
  }

  lemma KeyBucket(s: Sym, nb: nat)
    requires nb > 0
    ensures ClassOf(s, nb) == if s.Defined() then Hash(s.name) % nb + 1 else 0
  {
  }

  /** What the filled section says about the reordered table. */
  lemma FilledDescribes(t: seq<Sym>, nb: nat, newSyms: seq<Sym>, oldToNew: seq<nat>, g: Section)
    requires nb > 0 && Filled(t, nb, nb, newSyms, oldToNew, g) && g.symoffset >= 1
    ensures Describes(g, newSyms) && Moved(t, newSyms, oldToNew)
  {
    hide Filled, Classes, Starts, Moved, Hash, Arranged;
    hide ChainOk, BucketsOk, BloomOk, Heads, EndsBucket, Section.BloomHas;
    FilledFacts(t, nb, newSyms, oldToNew, g);
    AllDescribed(g, newSyms, nb, Starts(Classes(t, nb), nb), Classes(t, nb));
    FilledBloom(g, newSyms);
  }

  lemma FilledFacts(t: seq<Sym>, nb: nat, newSyms: seq<Sym>, oldToNew: seq<nat>, g: Section)
    requires nb > 0 && Filled(t, nb, nb, newSyms, oldToNew, g)
    ensures Moved(t, newSyms, oldToNew) && g.Sized() && g.nbuckets == nb && g.symoffset + |g.chain| == |newSyms|
    ensures var keys := Classes(t, nb);
      Arranged(newSyms, nb, Starts(keys, nb)) && g.symoffset == Starts(keys, nb)[1] &&
      ChainOk(g, newSyms, keys) && BucketsOk(g, keys, nb + 1) && BloomOk(g, newSyms)
  {
    hide Hash, OrderTo, Members, Arranged, ChainOk, BucketsOk, BloomOk, Place;
    assert Places(oldToNew, Classes(t, nb));
    OrderMoves(t, Classes(t, nb), nb + 1, oldToNew);
    FilledArranged(t, nb);
  }

  lemma AllDescribed(g: Section, u: seq<Sym>, nb: nat, st: seq<nat>, keys: seq<nat>)
    requires nb > 0 && g.nbuckets == nb && Arranged(u, nb, st) && st == Starts(keys, nb)
    requires ChainOk(g, u, keys) && BucketsOk(g, keys, nb + 1) && g.symoffset == st[1] >= 1
    ensures forall p :: 0 <= p < |u| ==> (u[p].Defined() <==> g.symoffset <= p)
    ensures forall p, q :: g.symoffset <= p < q < |u| ==> g.Bucket(u[p]) <= g.Bucket(u[q])
    ensures forall p :: g.symoffset <= p < |u| ==>
      g.chain[p - g.symoffset] == Hash(u[p].name) / 2 * 2 + (if EndsBucket(g, u, p) then 1 else 0)
    ensures forall b :: 0 <= b < g.nbuckets ==> Heads(g, u, b)
  {
    hide Hash, Arranged, ChainWord, EndsBucket, Heads, BucketsOk, Boundary;
    forall p | 0 <= p < |u| ensures u[p].Defined() <==> g.symoffset <= p {
      ArrangedSplit(u, nb, st, p);
    }
    forall p, q | g.symoffset <= p < q < |u| ensures g.Bucket(u[p]) <= g.Bucket(u[q]) {
      ArrangedOrder(u, nb, st, p, q);
    }
    forall p | g.symoffset <= p < |u|
      ensures g.chain[p - g.symoffset] == Hash(u[p].name) / 2 * 2 + (if EndsBucket(g, u, p) then 1 else 0)
    {
      ArrangedEnd(g, u, nb, st, keys, p);
    }
    forall b | 0 <= b < g.nbuckets ensures Heads(g, u, b) {
      ArrangedHead(g, u, nb, st, keys, b);
    }
  }

  lemma FilledBloom(g: Section, newSyms: seq<Sym>)
    requires BloomOk(g, newSyms)
    ensures forall p :: g.symoffset <= p < |newSyms| ==> g.BloomHas(Hash(newSyms[p].name))
  {
  }

  lemma ArrangedSplit(u: seq<Sym>, nb: nat, st: seq<nat>, p: nat)
    requires nb > 0 && Arranged(u, nb, st) && p < |u|
    ensures u[p].Defined() <==> st[1] <= p
  {
    hide Hash;
    assert u[p].Defined() ==> st[1] <= st[ClassOf(u[p], nb)];
  }

  lemma ArrangedOrder(u: seq<Sym>, nb: nat, st: seq<nat>, p: nat, q: nat)
    requires nb > 0 && Arranged(u, nb, st) && st[1] <= p < q < |u|
    ensures Hash(u[p].name) % nb <= Hash(u[q].name) % nb
  {
    ArrangedSplit(u, nb, st, p);
    ArrangedSplit(u, nb, st, q);
    KeyBucket(u[p], nb);
    KeyBucket(u[q], nb);
    hide Hash, ClassOf;
    var c, d := ClassOf(u[p], nb), ClassOf(u[q], nb);
    Ordered(st, d + 1, c);
  }

  lemma ArrangedEnd(g: Section, u: seq<Sym>, nb: nat, st: seq<nat>, keys: seq<nat>, p: nat)
    requires nb > 0 && Arranged(u, nb, st) && st == Starts(keys, nb) && st[1] <= p < |u| && g.nbuckets == nb
    ensures ChainWord(u[p], nb, keys, p) == Hash(u[p].name) / 2 * 2 + (if EndsBucket(g, u, p) then 1 else 0)
  {
    hide Hash, OrderTo;
    var c := ClassOf(u[p], nb);
    ArrangedSplit(u, nb, st, p);
    assert Boundary(keys, c, p) <==> p + 1 == st[c + 1];
    if p + 1 < st[c + 1] {
      ArrangedAt(u, nb, st, c, p + 1);
    } else if p + 1 < |u| {
      ArrangedSplit(u, nb, st, p + 1);
      assert ClassOf(u[p + 1], nb) != c;
    }
  }

  lemma ArrangedHead(g: Section, u: seq<Sym>, nb: nat, st: seq<nat>, keys: seq<nat>, b: nat)
    requires nb > 0 && Arranged(u, nb, st) && st == Starts(keys, nb) && b < nb && g.nbuckets == nb
    requires BucketsOk(g, keys, nb + 1) && g.symoffset == st[1] >= 1
    ensures Heads(g, u, b)
  {
    hide Hash, Arranged, ClassOf, OrderTo, Members;
    ClassSize(keys, nb, b + 1);
    if Members(keys, b + 1, |keys|) != [] {
      HeadFound(g, u, nb, st, b);
    } else {
      forall p | g.symoffset <= p < |u| ensures g.Bucket(u[p]) != b {
        ArrangedKey(u, nb, st, p);
      }
    }
  }

  lemma HeadFound(g: Section, u: seq<Sym>, nb: nat, st: seq<nat>, b: nat)
    requires nb > 0 && Arranged(u, nb, st) && b < nb && g.nbuckets == nb && st[b + 1] < st[b + 2]
    ensures st[1] <= st[b + 1] < |u| && g.Bucket(u[st[b + 1]]) == b
    ensures forall p :: st[1] <= p < st[b + 1] ==> g.Bucket(u[p]) != b
  {
    assert |st| == nb + 2;
    hide Hash, Arranged, ClassOf;
    ArrangedAt(u, nb, st, b + 1, st[b + 1]);
    ArrangedKey(u, nb, st, st[b + 1]);
    assert st[1] <= st[b + 1];
    forall p | st[1] <= p < st[b + 1] ensures g.Bucket(u[p]) != b {
      ArrangedKey(u, nb, st, p);
    }
  }

  lemma ClassSize(keys: seq<nat>, nb: nat, c: nat)
    requires c <= nb
    ensures Starts(keys, nb)[c + 1] == Starts(keys, nb)[c] + |Members(keys, c, |keys|)|
  {
  }

  lemma ArrangedKey(u: seq<Sym>, nb: nat, st: seq<nat>, p: nat)
    requires nb > 0 && Arranged(u, nb, st) && p < |u|
    ensures st[ClassOf(u[p], nb)] <= p < st[ClassOf(u[p], nb) + 1]
    ensures st[1] <= p <==> ClassOf(u[p], nb) == Hash(u[p].name) % nb + 1
    ensures forall c, d :: 0 <= c <= d < |st| ==> st[c] <= st[d]
  {
    ArrangedSplit(u, nb, st, p);
  }

  // ---------------------------------------------------------------- update_gnu_hash

  /** Every defined symbol is one that the SysV hash knows. */
  ghost predicate DefinedHashed(t: seq<Sym>) {
    forall p :: 0 <= p < |t| && t[p].Defined() ==> t[p].Hashed()
  }

  ghost predicate UndefinedInOrder(t: seq<Sym>, tr: seq<nat>) {
    |tr| == |t| && forall i, j :: 0 <= i < j < |t| && !t[i].Defined() && !t[j].Defined() ==> tr[i] < tr[j]
  }

  /** The dynamic symbol table with its two indexes, and the version of each symbol. */
  class Dynamic {
    const dynsym: SymbolTable.SymTab
    var gnu: Section
    var hasVersions: bool
    var versym: seq<nat>

    constructor (dynsym: SymbolTable.SymTab, hasVersions: bool, versym: seq<nat>)
      requires dynsym.Valid()
      ensures this.dynsym == dynsym && this.hasVersions == hasVersions && this.versym == versym
      ensures Empty(gnu, dynsym.table)
    {
      this.dynsym, this.hasVersions, this.versym := dynsym, hasVersions, versym;
      var syms := dynsym.Symbols();
      var g := CreateGnuHash(syms);
      gnu := g;
    }

    /** Both indexes are those of the present table. */
    ghost predicate Indexed()
      reads this, dynsym
    {
      dynsym.Valid() && dynsym.hashing && Describes(gnu, dynsym.table) && gnu.symoffset >= 1 &&
      UniqueNames(dynsym.table) && DefinedHashed(dynsym.table)
    }

    /** update_gnu_hash. The table was sized for as many defined symbols as there are now. */
    method UpdateGnuHash(relocs: array<seq<Rel>>) returns (ghost tr: seq<nat>)
      requires dynsym.Valid() && dynsym.hashing && Empty(gnu, dynsym.table) && !dynsym.table[0].Defined()
      requires hasVersions ==> |versym| == |dynsym.table|
      requires AllInRange(relocs[..], |dynsym.table|)
      modifies this, dynsym, relocs
      ensures dynsym.Valid() && dynsym.hashing && Describes(gnu, dynsym.table) && gnu.symoffset >= 1
      ensures Moved(old(dynsym.table), dynsym.table, tr) && tr[0] == 0
      ensures UndefinedInOrder(old(dynsym.table), tr)
      ensures hasVersions == old(hasVersions)
      ensures if hasVersions then Moved(old(versym), versym, tr) else versym == old(versym)
      ensures AllRedirected(relocs[..], old(relocs[..]), tr, 0)
      ensures old(UniqueNames(dynsym.table) && DefinedHashed(dynsym.table)) ==> Indexed()
    {
      hide Hash, Filled, Listed, Moved, Describes, Members, Place, Section.Sized, UniqueNames, DefinedHashed;
      hide SymbolTable.SymTab.HashShape, SymbolTable.SymTab.FileShape;
      var syms := dynsym.Symbols();
      ghost var t := syms;
      var nb := gnu.nbuckets;
      EmptyStart(gnu, t);
      var newSyms, oldToNew, hash := CopyUndefined(syms, nb);
      var first, last, next := BuildBuckets(syms, hash, nb);
      FilledStart(t, nb, newSyms, oldToNew, gnu);
      newSyms, oldToNew, gnu := FillTable(syms, hash, first, last, next, newSyms, oldToNew, gnu);
      FilledDescribes(t, nb, newSyms, oldToNew, gnu);
      FilledStable(t, nb, newSyms, oldToNew, gnu);
      tr := oldToNew;
      MovedLength(t, newSyms, tr);
      UpdateRelocs(relocs, oldToNew, 0);
      if hasVersions {
        versym := PermuteVersions(versym, oldToNew, t, newSyms);
      }
      dynsym.Reorder(oldToNew, newSyms);
      if UniqueNames(t) && DefinedHashed(t) {
        MovedUnique(t, newSyms, tr);
      }
    }

    /** The loader's lookup and find_elf_sym give the same index, when that symbol is defined. */
    method FindBoth(name: Name) returns (r: nat, symIndex: nat)
      requires Indexed()
      ensures symIndex != 0 ==> symIndex < |dynsym.table| && dynsym.table[symIndex].name == name
      ensures r == if symIndex != 0 && dynsym.table[symIndex].Defined() then symIndex else 0
      ensures r == 0 <==> forall p :: 0 <= p < |dynsym.table| && dynsym.table[p].Defined() ==>
        dynsym.table[p].name != name
    {
      hide Describes, SymbolTable.SymTab.HashShape, SymbolTable.SymTab.FileShape;
      var syms := dynsym.Symbols();
      r := Lookup(gnu, syms, name);
      symIndex := dynsym.FindElfSym(name);
      LookupsAgree(gnu, dynsym.table, name, r);
    }
  }

  lemma EmptyStart(g: Section, t: seq<Sym>)
    requires Empty(g, t) && |t| > 0 && !t[0].Defined()
    ensures g.Sized() && g.nbuckets > 0 && g.symoffset == |OrderTo(Classes(t, g.nbuckets), 1)| >= 1
  {
    var keys := Classes(t, g.nbuckets);
    UndefinedRest(t, g.nbuckets, |t|);
    assert OrderTo(keys, 0) == [];
    MemberRank(keys, 0, |t|);
  }

  lemma FilledStart(t: seq<Sym>, nb: nat, newSyms: seq<Sym>, oldToNew: seq<nat>, g: Section)
    requires nb > 0 && g.nbuckets == nb && Empty(g, t) && g.symoffset == |OrderTo(Classes(t, nb), 1)|
    requires newSyms == Gather(t, OrderTo(Classes(t, nb), 1)) && |oldToNew| == |t|
    requires forall i :: 0 <= i < |t| && Classes(t, nb)[i] == 0 ==> oldToNew[i] == Place(Classes(t, nb), i)
    ensures Filled(t, nb, 0, newSyms, oldToNew, g)
  {
    hide Hash, OrderTo, Members, Place;
  }

  lemma FilledStable(t: seq<Sym>, nb: nat, newSyms: seq<Sym>, oldToNew: seq<nat>, g: Section)
    requires nb > 0 && Filled(t, nb, nb, newSyms, oldToNew, g)
    ensures |oldToNew| == |t| && (|t| > 0 && !t[0].Defined() ==> oldToNew[0] == 0)
    ensures UndefinedInOrder(t, oldToNew)
  {
    if |t| > 0 && !t[0].Defined() {
      FirstPlace(Classes(t, nb));
    }
    hide Hash, Place, OrderTo, Members, ChainOk, BloomOk, BucketsOk, Gather;
    forall i, j | 0 <= i < j < |t| && !t[i].Defined() && !t[j].Defined() ensures oldToNew[i] < oldToNew[j] {
      PlaceMonotone(Classes(t, nb), i, j);
    }
  }

  lemma FirstPlace(keys: seq<nat>)
    requires |keys| > 0 && keys[0] == 0
    ensures Place(keys, 0) == 0
  {
  }

  lemma MovedLength<T(!new)>(s: seq<T>, moved: seq<T>, tr: seq<nat>)
    requires Moved(s, moved, tr)
    ensures |s| == |moved| == |tr| && forall i :: 0 <= i < |s| ==> tr[i] < |s|
  {
  }

  /** The loop over the versions: each one follows its symbol. */
  method PermuteVersions(versym: seq<nat>, tr: seq<nat>, ghost t: seq<Sym>, ghost moved: seq<Sym>)
      returns (newver: seq<nat>)
    requires |versym| == |t| && Moved(t, moved, tr)
    ensures Moved(versym, newver, tr)
  {
    newver := seq(|versym|, _ => 0);
    for i := 0 to |versym|
      invariant |newver| == |versym| && forall j :: 0 <= j < i ==> newver[tr[j]] == versym[j]
    {
      newver := newver[tr[i] := versym[i]];
    }
  }

  /** Reordering keeps names unique and defined symbols hashed. */
  lemma MovedUnique(t: seq<Sym>, moved: seq<Sym>, tr: seq<nat>)
    requires UniqueNames(t) && DefinedHashed(t) && Moved(t, moved, tr) && tr[0] == 0
    ensures UniqueNames(moved) && DefinedHashed(moved)
  {
    forall p, q | 0 <= p < q < |moved| && moved[p].Hashed() && moved[q].Hashed()
      ensures moved[p].name != moved[q].name
    {
      var i := Origin(tr, p);
      var j := Origin(tr, q);
      assert moved[tr[i]] == t[i] && moved[tr[j]] == t[j];
    }
    forall p | 0 <= p < |moved| && moved[p].Defined() ensures moved[p].Hashed() {
      var i := Origin(tr, p);
      assert moved[tr[i]] == t[i];
    }
  }

  /** With one hashed symbol per name and every defined symbol hashed, what the GNU lookup gives is
      what a plain scan gives, when that symbol is defined. */
  lemma LookupsAgree(g: Section, t: seq<Sym>, name: Name, r: nat)
    requires Describes(g, t) && g.symoffset >= 1 && UniqueNames(t)
    requires DefinedHashed(t)
    requires r != 0 ==> g.symoffset <= r < |t| && t[r].Defined() && t[r].name == name
    requires r == 0 ==> forall p :: 0 <= p < |t| && t[p].Defined() ==> t[p].name != name
    ensures r == if Find(t, name) != 0 && t[Find(t, name)].Defined() then Find(t, name) else 0
  {
    hide Describes;
    if r != 0 {
      FindUnique(t, r);
    }
  }
}
