/** Local symbols first: sort_syms (tccelf.c). */
module SymbolOrder {
  import opened Symbols
  import opened SymbolTable
  import opened Relocations
  import opened BucketOrder

  predicate Local(e: ElfSym) {
    Bind(e.info) == STB_LOCAL
  }

  /** Class 0 for local symbols, class 1 for the others. */
  ghost function Kinds(s: seq<ElfSym>): (keys: seq<nat>)
    ensures |keys| == |s| && forall i :: 0 <= i < |s| ==> keys[i] == if Local(s[i]) then 0 else 1
  {
    seq(|s|, i requires 0 <= i < |s| => if Local(s[i]) then 0 else 1)
  }

  ghost function Sorted(s: seq<ElfSym>): seq<ElfSym> {
    Gather(s, OrderTo(Kinds(s), 2))
  }

  /** The number of local symbols. */
  ghost function Locals(s: seq<ElfSym>): nat {
    |OrderTo(Kinds(s), 1)|
  }

  /** sort_syms is a stable partition: a permutation, locals in front, order kept within each
      kind, and the null symbol stays at index 0. */
  lemma StablePartition(s: seq<ElfSym>, tr: seq<nat>)
    requires Places(tr, Kinds(s))
    ensures Moved(s, Sorted(s), tr)
    ensures forall i :: 0 <= i < |s| ==> (Bind(s[i].info) == STB_LOCAL <==> tr[i] < Locals(s))
    ensures forall i, j :: 0 <= i < j < |s| && (Bind(s[i].info) == STB_LOCAL <==> Bind(s[j].info) == STB_LOCAL) ==>
      tr[i] < tr[j]
    ensures |s| > 0 && Bind(s[0].info) == STB_LOCAL ==> tr[0] == 0
  {
    var keys := Kinds(s);
    OrderMoves(s, keys, 2, tr);
    forall i | 0 <= i < |s| ensures Local(s[i]) <==> tr[i] < Locals(s) {
      if Local(s[i]) {
        PlaceInOrder(keys, i, 1);
      }
    }
    forall i, j | 0 <= i < j < |s| && Local(s[i]) == Local(s[j]) ensures tr[i] < tr[j] {
      PlaceMonotone(keys, i, j);
    }
  }

  /** One pass of sort_syms: the symbols of class c are appended to newSyms. */
  method CopyKind(syms: array<ElfSym>, newSyms: array<ElfSym>, oldToNew: array<nat>, start: nat, c: nat)
    returns (q: nat)
    requires newSyms.Length == oldToNew.Length == syms.Length && syms != newSyms && c < 2
    requires start == |OrderTo(Kinds(syms[..]), c)|
    requires forall j :: 0 <= j < start ==> j < newSyms.Length && newSyms[j] == syms[OrderTo(Kinds(syms[..]), c)[j]]
    modifies newSyms, oldToNew
    ensures q == |OrderTo(Kinds(syms[..]), c + 1)| <= syms.Length
    ensures forall j :: 0 <= j < q ==> newSyms[j] == syms[OrderTo(Kinds(syms[..]), c + 1)[j]]
    ensures forall j :: 0 <= j < syms.Length ==>
      oldToNew[j] == if Kinds(syms[..])[j] == c then Place(Kinds(syms[..]), j) else old(oldToNew[j])
  {
    hide Members, OrderTo, Local, Copied, Kinds;
    ghost var s, tr0 := syms[..], oldToNew[..];
    ClassStarts(Kinds(s), c);
    CopyStart(s, newSyms[..], tr0, c);
    q := start;
    for i := 0 to syms.Length
      invariant syms[..] == s && Copied(s, newSyms[..], tr0, oldToNew[..], c, i)
      invariant q == |OrderTo(Kinds(s), c)| + |Members(Kinds(s), c, i)|
    {
      ClassGrows(Kinds(s), c, i);
      CopyNext(s, newSyms[..], tr0, oldToNew[..], c, i);
      if Local(syms[i]) == (c == 0) {
        oldToNew[i] := q;
        newSyms[q] := syms[i];
        q := q + 1;
      }
    }
    ClassEnds(Kinds(s), c);
    CopyEnd(s, newSyms[..], tr0, oldToNew[..], c);
  }

  /** What one pass has done when it stands at symbol i. */
  ghost predicate Copied(s: seq<ElfSym>, moved: seq<ElfSym>, tr0: seq<nat>, tr: seq<nat>, c: nat, i: nat)
    requires i <= |s|
  {
    var keys := Kinds(s);
    var order := OrderTo(keys, c) + Members(keys, c, i);
    |moved| == |tr0| == |tr| == |s| && |order| <= |s| &&
    (forall j :: 0 <= j < |order| ==> moved[j] == s[order[j]]) &&
    forall j :: 0 <= j < |s| ==> tr[j] == if j < i && keys[j] == c then Place(keys, j) else tr0[j]
  }

  lemma CopyStart(s: seq<ElfSym>, moved: seq<ElfSym>, tr0: seq<nat>, c: nat)
    requires |moved| == |tr0| == |s| && |OrderTo(Kinds(s), c)| <= |s|
    requires forall j :: 0 <= j < |OrderTo(Kinds(s), c)| ==> moved[j] == s[OrderTo(Kinds(s), c)[j]]
    ensures Copied(s, moved, tr0, tr0, c, 0)
  {
    assert OrderTo(Kinds(s), c) + Members(Kinds(s), c, 0) == OrderTo(Kinds(s), c);
  }

  lemma CopyNext(s: seq<ElfSym>, moved: seq<ElfSym>, tr0: seq<nat>, tr: seq<nat>, c: nat, i: nat)
    requires i < |s| && c < 2 && Copied(s, moved, tr0, tr, c, i)
    ensures var q := |OrderTo(Kinds(s), c)| + |Members(Kinds(s), c, i)|;
      if Local(s[i]) == (c == 0) then q < |s| && Copied(s, moved[q := s[i]], tr0, tr[i := q], c, i + 1)
      else Copied(s, moved, tr0, tr, c, i + 1)
  {
    hide Members, OrderTo, Local;
    var keys := Kinds(s);
    ClassGrows(keys, c, i);
    hide Kinds;
    var order := OrderTo(keys, c) + Members(keys, c, i);
    if keys[i] == c {
      PlaceInOrder(keys, i, 2);
      OrderFull(keys);
      assert OrderTo(keys, c) + Members(keys, c, i + 1) == order + [i];
    }
  }

  lemma CopyEnd(s: seq<ElfSym>, moved: seq<ElfSym>, tr0: seq<nat>, tr: seq<nat>, c: nat)
    requires Copied(s, moved, tr0, tr, c, |s|) &&
      OrderTo(Kinds(s), c + 1) == OrderTo(Kinds(s), c) + Members(Kinds(s), c, |s|)
    ensures |OrderTo(Kinds(s), c + 1)| <= |s| == |moved| == |tr| == |tr0|
    ensures forall j :: 0 <= j < |OrderTo(Kinds(s), c + 1)| ==> moved[j] == s[OrderTo(Kinds(s), c + 1)[j]]
    ensures forall j :: 0 <= j < |s| ==> tr[j] == if Kinds(s)[j] == c then Place(Kinds(s), j) else tr0[j]
  {
  }

  lemma ClassStarts(keys: seq<nat>, c: nat)
    requires c < 2 && forall i :: 0 <= i < |keys| ==> keys[i] < 2
    ensures Members(keys, c, 0) == [] && |OrderTo(keys, c)| <= |keys|
  {
    OrderLength(keys, c);
  }

  lemma ClassGrows(keys: seq<nat>, c: nat, i: nat)
    requires i < |keys|
    ensures Members(keys, c, i + 1) == Members(keys, c, i) + (if keys[i] == c then [i] else [])
  {
  }

  lemma ClassEnds(keys: seq<nat>, c: nat)
    ensures OrderTo(keys, c + 1) == OrderTo(keys, c) + Members(keys, c, |keys|)
  {
  }

  lemma OrderFull(keys: seq<nat>)
    requires forall i :: 0 <= i < |keys| ==> keys[i] < 2
    ensures |OrderTo(keys, 2)| == |keys|
  {
    OrderLength(keys, 2);
    CountAll(keys, 2, |keys|);
  }

  lemma NoneBefore(s: seq<ElfSym>)
    ensures OrderTo(Kinds(s), 0) == [] && forall i :: 0 <= i < |s| ==> Kinds(s)[i] == 0 || Kinds(s)[i] == 1
  {
  }

  lemma SortedWhole(s: seq<ElfSym>, moved: seq<ElfSym>)
    requires |moved| == |s| == |OrderTo(Kinds(s), 2)|
    requires forall j :: 0 <= j < |s| ==> moved[j] == s[OrderTo(Kinds(s), 2)[j]]
    ensures moved == Sorted(s)
  {
    hide OrderTo;
  }

  /** The memcpy from the new table to the old one. */
  method CopyBack<T>(newSyms: array<T>, syms: array<T>)
    requires newSyms.Length == syms.Length && newSyms != syms
    modifies syms
    ensures syms[..] == newSyms[..] == old(newSyms[..])
  {
    for i := 0 to syms.Length
      invariant newSyms[..] == old(newSyms[..])
      invariant syms[..i] == newSyms[..i]
    {
      syms[i] := newSyms[i];
    }
    assert syms[..] == syms[..syms.Length] && newSyms[..] == newSyms[..syms.Length];
  }

  /** sort_syms; shInfo is the new sh_info, set only when the section has a size. */
  method SortSyms(syms: array<ElfSym>, relocs: array<seq<Rel>>, shSize: nat, shInfo: nat)
    returns (newInfo: nat, ghost tr: seq<nat>)
    requires AllInRange(relocs[..], syms.Length)
    modifies syms, relocs
    ensures syms[..] == Sorted(old(syms[..])) && Places(tr, Kinds(old(syms[..])))
    ensures newInfo == if shSize != 0 then Locals(old(syms[..])) else shInfo
    ensures AllRedirected(relocs[..], old(relocs[..]), tr, 0)
  {
    hide Members, Kinds, Place, OrderTo, AllInRange, AllRedirected;
    NoneBefore(syms[..]);
    ghost var s := syms[..];
    var newSyms := new ElfSym[syms.Length](_ => ElfSym(0, 0, 0, 0, 0, 0));
    var oldToNew := new nat[syms.Length];
    var q := CopyKind(syms, newSyms, oldToNew, 0, 0);
    newInfo := if shSize != 0 then q else shInfo;
    assert syms[..] == s;
    q := CopyKind(syms, newSyms, oldToNew, q, 1);
    assert syms[..] == s;
    OrderFull(Kinds(s));
    SortedWhole(s, newSyms[..]);
    hide Sorted;
    tr := oldToNew[..];
    CopyBack(newSyms, syms);
    UpdateRelocs(relocs, oldToNew[..], 0);
  }
}
