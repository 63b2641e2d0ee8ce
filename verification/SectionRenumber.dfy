/** reorder_sections (tccelf.c): sections take their output order, unnamed ones leave, and every
    reference to a section follows it. */
module SectionRenumber {
  import opened Permutations

  datatype Kind = Relocations | Symbols | Other

  /** order lists every section number once, the null section first. */
  ghost predicate Permutation(order: seq<nat>, n: nat) {
    |order| == n && n > 0 && order[0] == 0 && (forall i :: 0 <= i < n ==> order[i] < n) &&
    (forall i, j :: 0 <= i < j < n ==> order[i] != order[j])
  }

  /** The first i sections of the order that are kept, in order. */
  ghost function KeptOf(order: seq<nat>, named: seq<bool>, i: nat): (r: seq<nat>)
    requires i <= |order| == |named| && forall x :: 0 <= x < i ==> order[x] < |named|
    ensures |r| <= i
  {
    if i == 0 then []
    else KeptOf(order, named, i - 1) + (if Kept(order[i - 1], named) then [order[i - 1]] else [])
  }

  predicate Kept(k: nat, named: seq<bool>)
    requires k < |named|
  {
    k == 0 || named[k]
  }

  ghost predicate Renumbered(snew: seq<nat>, backmap: seq<nat>, k: nat, named: seq<bool>)
    requires k < |named| == |backmap|
  {
    if Kept(k, named) then backmap[k] < |snew| && snew[backmap[k]] == k else backmap[k] == 0
  }

  /** The new list snew has the output order, and the new number of every old section agrees with
      it; backmap[k] is 0 for a section that left. */
  ghost predicate Renumbers(snew: seq<nat>, backmap: seq<nat>, order: seq<nat>, named: seq<bool>, i: nat) {
    i <= |order| == |named| == |backmap| &&
    (forall p :: 0 <= p < |snew| ==> snew[p] < |named| && Kept(snew[p], named) && backmap[snew[p]] == p) &&
    (forall j :: 0 <= j < i ==> order[j] < |named| && Renumbered(snew, backmap, order[j], named)) &&
    (forall p :: 0 <= p < |snew| ==> snew[p] in order[..i]) && snew == KeptOf(order, named, i)
  }

  lemma RenumberNext(snew: seq<nat>, backmap: seq<nat>, order: seq<nat>, named: seq<bool>, i: nat)
    requires Permutation(order, |named|) && Renumbers(snew, backmap, order, named, i) && i < |order|
    ensures var k := order[i]; k < |backmap| == |named| && (Kept(k, named) <==> i == 0 || named[k])
    ensures var k := order[i]; Renumbers(if Kept(k, named) then snew + [k] else snew,
                                         backmap[k := if Kept(k, named) then |snew| else 0], order, named, i + 1)
  {
    hide KeptOf;
    KeptNext(order, named, i);
    var k := order[i];
    assert order[..i + 1] == order[..i] + [k];
    var snew' := if Kept(k, named) then snew + [k] else snew;
    var map' := backmap[k := if Kept(k, named) then |snew| else 0];
    forall p | 0 <= p < |snew| ensures snew[p] != k {
      assert snew[p] in order[..i];
    }
    forall j | 0 <= j < i + 1 ensures order[j] < |named| && Renumbered(snew', map', order[j], named) {
      if j < i {
        assert order[j] != k && Renumbered(snew, backmap, order[j], named);
      }
    }
  }

  lemma KeptNext(order: seq<nat>, named: seq<bool>, i: nat)
    requires i < |order| == |named| && forall x :: 0 <= x <= i ==> order[x] < |named|
    ensures KeptOf(order, named, i + 1) == KeptOf(order, named, i) + (if Kept(order[i], named) then [order[i]] else [])
  {
  }

  lemma RenumberNone(backmap: seq<nat>, order: seq<nat>, named: seq<bool>)
    requires |order| == |named| == |backmap|
    ensures Renumbers([], backmap, order, named, 0)
  {
  }

  /** The first loop. */
  method BuildBackmap(order: seq<nat>, named: seq<bool>) returns (snew: seq<nat>, backmap: seq<nat>)
    requires Permutation(order, |named|)
    ensures Renumbers(snew, backmap, order, named, |order|) && |snew| > 0 && snew[0] == 0
  {
    hide Renumbers, KeptOf;
    snew, backmap := [], seq(|order|, _ => 0);
    RenumberNone(backmap, order, named);
    for i := 0 to |order|
      invariant Renumbers(snew, backmap, order, named, i) && |backmap| == |named|
      invariant if i == 0 then snew == [] else |snew| > 0 && snew[0] == 0
    {
      var k := order[i];
      RenumberNext(snew, backmap, order, named, i);
      if i == 0 || named[k] {
        backmap := backmap[k := |snew|];
        snew := snew + [k];
      } else {
        backmap := backmap[k := 0];
      }
    }
  }

  /** A section number stored in a symbol; reserved numbers are not section numbers. */
  function Mapped(shndx: nat, backmap: seq<nat>): nat {
    if shndx < |backmap| then backmap[shndx] else shndx
  }

  /** sh_info of a relocation section is the new number of its target; of others it stays. */
  predicate InfoMapped(kind: Kind, now: nat, was: nat, backmap: seq<nat>) {
    if kind == Relocations then was < |backmap| && now == backmap[was] else now == was
  }

  ghost predicate SymbolsMapped(kind: Kind, now: seq<nat>, was: seq<nat>, backmap: seq<nat>) {
    if kind == Symbols then AllMapped(now, was, backmap) else now == was
  }

  /** The first i sections of the new list have their numbers, and what they refer to is mapped. */
  ghost predicate Followed(snew: seq<nat>, i: nat, kinds: seq<Kind>, backmap: seq<nat>, num: seq<nat>,
                           info: seq<nat>, infoWas: seq<nat>, ndx: seq<seq<nat>>, ndxWas: seq<seq<nat>>) {
    |num| == |info| == |infoWas| == |ndx| == |ndxWas| == |kinds| && i <= |snew| &&
    (forall p :: 0 <= p < |snew| ==> snew[p] < |kinds|) &&
    (forall p :: 1 <= p < i ==> num[snew[p]] == p) &&
    (forall p :: 1 <= p < i ==> InfoMapped(kinds[snew[p]], info[snew[p]], infoWas[snew[p]], backmap)) &&
    (forall p :: 1 <= p < i ==> SymbolsMapped(kinds[snew[p]], ndx[snew[p]], ndxWas[snew[p]], backmap)) &&
    (forall p :: i <= p < |snew| ==> info[snew[p]] == infoWas[snew[p]] && ndx[snew[p]] == ndxWas[snew[p]])
  }

  lemma FollowNext(snew: seq<nat>, i: nat, kinds: seq<Kind>, backmap: seq<nat>, num: seq<nat>, info: seq<nat>,
                   infoWas: seq<nat>, ndx: seq<seq<nat>>, ndxWas: seq<seq<nat>>, x: nat, y: seq<nat>)
    requires Followed(snew, i, kinds, backmap, num, info, infoWas, ndx, ndxWas) && 1 <= i < |snew|
    requires forall p, q :: 0 <= p < q < |snew| ==> snew[p] != snew[q]
    requires InfoMapped(kinds[snew[i]], x, info[snew[i]], backmap)
    requires SymbolsMapped(kinds[snew[i]], y, ndx[snew[i]], backmap)
    ensures var s := snew[i];
      Followed(snew, i + 1, kinds, backmap, num[s := i], info[s := x], infoWas, ndx[s := y], ndxWas)
  {
    hide InfoMapped, SymbolsMapped;
  }

  /** The second loop: sh_num, sh_info of relocation sections and st_shndx of all symbols but the
      null one, in the sections that stay. */
  method ReorderSections(order: seq<nat>, named: seq<bool>, kinds: seq<Kind>, shNum: array<nat>, shInfo: array<nat>,
                         shndx: array<seq<nat>>)
    returns (snew: seq<nat>, ghost backmap: seq<nat>)
    requires Permutation(order, |named|) && |kinds| == shNum.Length == shInfo.Length == shndx.Length == |named|
    requires forall k :: 0 <= k < |kinds| && kinds[k] == Relocations ==> shInfo[k] < |named|
    requires shNum != shInfo
    modifies shNum, shInfo, shndx
    ensures Renumbers(snew, backmap, order, named, |order|) && |snew| > 0 && snew[0] == 0
    ensures Followed(snew, |snew|, kinds, backmap, shNum[..], shInfo[..], old(shInfo[..]), shndx[..], old(shndx[..]))
  {
    hide Renumbers, Permutation, AllMapped, Mapped, Followed;
    var map';
    snew, map' := BuildBackmap(order, named);
    backmap := map';
    NewDistinct(snew, map', order, named);
    ghost var infoWas, ndxWas := shInfo[..], shndx[..];
    FollowNone(snew, kinds, map', shNum[..], infoWas, ndxWas);
    for i := 1 to |snew|
      invariant Followed(snew, i, kinds, map', shNum[..], shInfo[..], infoWas, shndx[..], ndxWas)
      invariant forall p :: i <= p < |snew| ==> shInfo[snew[p]] == infoWas[snew[p]]
    {
      var s := snew[i];
      ghost var num, info, ndx := shNum[..], shInfo[..], shndx[..];
      shNum[s] := i;
      if kinds[s] == Relocations {
        shInfo[s] := map'[shInfo[s]];
      } else if kinds[s] == Symbols {
        shndx[s] := MapSymbols(shndx[s], map');
      }
      FollowNext(snew, i, kinds, map', num, info, infoWas, ndx, ndxWas, shInfo[s], shndx[s]);
      assert shNum[..] == num[s := shNum[s]] && shInfo[..] == info[s := shInfo[s]] && shndx[..] == ndx[s := shndx[s]];
    }
  }

  lemma FollowNone(snew: seq<nat>, kinds: seq<Kind>, backmap: seq<nat>, num: seq<nat>, info: seq<nat>,
                   ndx: seq<seq<nat>>)
    requires |num| == |info| == |ndx| == |kinds| && |snew| > 0 && forall p :: 0 <= p < |snew| ==> snew[p] < |kinds|
    ensures Followed(snew, 1, kinds, backmap, num, info, info, ndx, ndx)
  {
  }

  lemma NewDistinct(snew: seq<nat>, backmap: seq<nat>, order: seq<nat>, named: seq<bool>)
    requires Renumbers(snew, backmap, order, named, |order|)
    ensures |backmap| == |named| && forall p :: 0 <= p < |snew| ==> snew[p] < |named|
    ensures forall p, q :: 0 <= p < q < |snew| ==> snew[p] != snew[q]
  {
  }

  ghost predicate AllMapped(now: seq<nat>, was: seq<nat>, backmap: seq<nat>) {
    |now| == |was| && forall j :: 0 <= j < |was| ==> now[j] == if j == 0 then was[j] else Mapped(was[j], backmap)
  }

  method MapSymbols(was: seq<nat>, backmap: seq<nat>) returns (now: seq<nat>)
    ensures AllMapped(now, was, backmap)
  {
    now := was;
    if was == [] {
      return;
    }
    for j := 1 to |was|
      invariant |now| == |was| && forall x :: 0 <= x < |was| ==>
        now[x] == if 1 <= x < j then Mapped(was[x], backmap) else was[x]
    {
      if now[j] < |backmap| {
        now := now[j := backmap[now[j]]];
      }
    }
  }

  /** A symbol or relocation section that named a section which is written names the same section
      afterwards, under its new number; one whose section left becomes undefined. */
  lemma ReferenceKept(snew: seq<nat>, backmap: seq<nat>, order: seq<nat>, named: seq<bool>, shndx: nat)
    requires Permutation(order, |named|) && Renumbers(snew, backmap, order, named, |order|) && shndx < |named|
    ensures if Kept(shndx, named) then Mapped(shndx, backmap) < |snew| && snew[Mapped(shndx, backmap)] == shndx
      else Mapped(shndx, backmap) == 0
  {
    var j := Origin(order, shndx);
  }
}
