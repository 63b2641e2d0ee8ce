/** Which of many definitions of one name the linker keeps (set_elf_sym), and when the order of
    the inputs does not matter. */
module Resolution {
  import opened Bytes
  import opened Symbols
  import opened FileMerge

  /** Global or weak, default visibility, undefined, common or in an ordinary section. */
  ghost predicate Plain(x: Sym) {
    (Bind(x.info) == STB_GLOBAL || Bind(x.info) == STB_WEAK) && x.other == 0 &&
    (x.shndx < SHN_LORESERVE || x.shndx == SHN_COMMON)
  }

  ghost predicate Inputs(xs: seq<Sym>, name: Name, c: Context) {
    0 < c.bss < SHN_LORESERVE && !c.dll && forall i :: 0 <= i < |xs| ==> Plain(xs[i]) && xs[i].name == name
  }

  predicate Bss(x: Sym, c: Context) {
    x.shndx == SHN_COMMON || x.shndx == c.bss
  }

  /** Strong data beats strong common or bss, which beats weak, which beats undefined. */
  function Rank(x: Sym, c: Context): (r: nat)
    ensures r <= 3
  {
    if !x.Defined() then 0
    else if Bind(x.info) != STB_GLOBAL then 1
    else if Bss(x, c) then 2
    else 3
  }

  datatype Outcome = Outcome(sym: Sym, clashes: nat)

  /** The entry left by set_elf_sym for xs, all of one name, in this order. */
  function Resolve(xs: seq<Sym>, c: Context): (r: Outcome)
    requires |xs| > 0
  {
    var n := |xs| - 1;
    if n == 0 then
      Outcome(xs[0], 0)
    else
      var r := Resolve(xs[..n], c);
      Outcome(Merge(r.sym, xs[n], c), r.clashes + (if Clashes(r.sym, xs[n], c) then 1 else 0))
  }

  /** set_elf_sym for each of xs in turn. */
  ghost function InsertAll(t: seq<Sym>, xs: seq<Sym>, c: Context): (r: (seq<Sym>, nat)) {
    if xs == [] then
      (t, 0)
    else
      var n := |xs| - 1;
      var (u, k) := InsertAll(t, xs[..n], c);
      var r := Insert(u, xs[n], c);
      (r.table, k + (if r.clash then 1 else 0))
  }

  /** On a table that does not know the name yet, only one record is added. */
  lemma {:induction false} InsertAllResolves(t: seq<Sym>, xs: seq<Sym>, name: Name, c: Context)
    requires UniqueNames(t) && Inputs(xs, name, c) && |xs| > 0 && Find(t, name) == 0
    ensures InsertAll(t, xs, c) == (t + [Resolve(xs, c).sym], Resolve(xs, c).clashes)
    ensures Plain(Resolve(xs, c).sym) && Resolve(xs, c).sym.name == name
    decreases |xs|
  {
    hide Merge, Clashes, Rank;
    var n := |xs| - 1;
    if n == 0 {
      assert InsertAll(t, xs[..0], c) == (t, 0);
    } else {
      InsertAllResolves(t, xs[..n], name, c);
      var e := Resolve(xs[..n], c).sym;
      assert [e, xs[n]][0] == e && [e, xs[n]][1] == xs[n];
      MergeByRank(e, xs[n], c);
      InsertOver(t, e, xs[n], c);
      hide Insert, Find, UniqueNames;
    }
  }

  /** A further definition of the name of the last record. */
  lemma InsertOver(t: seq<Sym>, e: Sym, x: Sym, c: Context)
    requires UniqueNames(t) && Find(t, e.name) == 0 && Plain(e) && Plain(x) && x.name == e.name
    ensures var r := Insert(t + [e], x, c);
      r.table == t + [Merge(e, x, c)] && (r.clash <==> Clashes(e, x, c))
  {
    hide Merge, Clashes;
    var u := t + [e];
    assert UniqueNames(u) && u[|t|] == e;
    FindUnique(u, |t|);
    assert u[|t| := Merge(e, x, c)] == t + [Merge(e, x, c)];
  }

  /** The first input of the highest rank; of undefined ones, the last. */
  ghost predicate Wins(xs: seq<Sym>, w: Sym, c: Context) {
    exists k :: 0 <= k < |xs| && w == xs[k] && WinsAt(xs, k, c)
  }

  ghost predicate WinsAt(xs: seq<Sym>, k: nat, c: Context)
    requires k < |xs|
  {
    (forall i :: 0 <= i < |xs| ==> Rank(xs[i], c) <= Rank(xs[k], c)) &&
    if Rank(xs[k], c) == 0 then k == |xs| - 1 else forall i :: 0 <= i < k ==> Rank(xs[i], c) < Rank(xs[k], c)
  }

  /** Two different strong data definitions. */
  ghost predicate DefinedTwice(xs: seq<Sym>, c: Context) {
    exists x, y :: x in xs && y in xs && x != y && Rank(x, c) == 3 && Rank(y, c) == 3
  }

  lemma MergeByRank(e: Sym, x: Sym, c: Context)
    requires Inputs([e, x], e.name, c)
    ensures Merge(e, x, c) == if Rank(x, c) > Rank(e, c) || Rank(e, c) == 0 then x else e
    ensures Clashes(e, x, c) <==> e != x && Rank(e, c) == 3 && Rank(x, c) == 3
  {
    assert Plain([e, x][0]) && Plain([e, x][1]) && [e, x][1].name == e.name;
  }

  /** Strong data wins, otherwise the first common or bss, otherwise the first weak definition;
      "defined twice" is reported exactly when two different strong data definitions exist. */
  lemma {:induction false} ResolveWinner(xs: seq<Sym>, name: Name, c: Context)
    requires |xs| > 0 && Inputs(xs, name, c)
    ensures Wins(xs, Resolve(xs, c).sym, c)
    ensures Resolve(xs, c).clashes > 0 <==> DefinedTwice(xs, c)
    decreases |xs|
  {
    hide Merge, Clashes, Rank, Plain, DefinedTwice;
    var n := |xs| - 1;
    if n == 0 {
      assert WinsAt(xs, 0, c);
      OneIsNotTwice(xs, c);
    } else {
      var ys, x := xs[..n], xs[n];
      ResolveWinner(ys, name, c);
      var e := Resolve(ys, c).sym;
      var k :| 0 <= k < |ys| && e == ys[k] && WinsAt(ys, k, c);
      assert [e, x][0] == e && [e, x][1] == x;
      MergeByRank(e, x, c);
      StillTwice(xs, e, x, c);
      hide Wins;
      WinsNext(xs, k, c);
    }
  }

  lemma OneIsNotTwice(xs: seq<Sym>, c: Context)
    requires |xs| == 1
    ensures !DefinedTwice(xs, c)
  {
  }

  /** The winner among the inputs before the last meets the last. */
  lemma WinsNext(xs: seq<Sym>, k: nat, c: Context)
    requires |xs| > 1 && k < |xs| - 1 && WinsAt(xs[..|xs| - 1], k, c)
    ensures Wins(xs, if Rank(xs[|xs| - 1], c) > Rank(xs[k], c) || Rank(xs[k], c) == 0 then xs[|xs| - 1] else xs[k], c)
  {
    hide Rank;
    var n := |xs| - 1;
    var k' := if Rank(xs[n], c) > Rank(xs[k], c) || Rank(xs[k], c) == 0 then n else k;
    assert forall i :: 0 <= i < n ==> xs[..n][i] == xs[i];
    assert WinsAt(xs, k', c);
  }

  lemma StillTwice(xs: seq<Sym>, e: Sym, x: Sym, c: Context)
    requires |xs| > 1 && x == xs[|xs| - 1] && Wins(xs[..|xs| - 1], e, c)
    ensures DefinedTwice(xs, c) <==>
      DefinedTwice(xs[..|xs| - 1], c) || (e != x && Rank(e, c) == 3 && Rank(x, c) == 3)
  {
    var ys := xs[..|xs| - 1];
    assert forall z :: z in xs <==> z in ys || z == x;
    assert e in ys;
    if z, y :| z in xs && y in xs && z != y && Rank(z, c) == 3 && Rank(y, c) == 3 {
      assert z in ys || y in ys;
      assert Rank(e, c) == 3;
      if !DefinedTwice(ys, c) {
        assert z == x || y == x;
      }
    }
  }

  /** For any two orders of the same inputs, with or without repetitions: the same inputs are
      rejected, the winners have the same rank, and a strong data definition that is accepted
      wins in both. */
  lemma OrderIndependent(xs: seq<Sym>, ys: seq<Sym>, name: Name, c: Context)
    requires |xs| > 0 && |ys| > 0 && Inputs(xs, name, c) && Inputs(ys, name, c)
    requires forall x :: x in xs <==> x in ys
    ensures Resolve(xs, c).clashes > 0 <==> Resolve(ys, c).clashes > 0
    ensures Rank(Resolve(xs, c).sym, c) == Rank(Resolve(ys, c).sym, c)
    ensures Resolve(xs, c).clashes == 0 && Rank(Resolve(xs, c).sym, c) == 3 ==>
      Resolve(xs, c).sym == Resolve(ys, c).sym
  {
    ResolveWinner(xs, name, c);
    ResolveWinner(ys, name, c);
    var v, w := Resolve(xs, c).sym, Resolve(ys, c).sym;
    assert v in xs && w in ys;
  }

  /** No input has a higher rank. */
  ghost predicate Top(xs: seq<Sym>, x: Sym, c: Context) {
    x in xs && forall y :: y in xs ==> Rank(y, c) <= Rank(x, c)
  }

  /** The inputs of the highest rank are all equal. */
  ghost predicate OneTop(xs: seq<Sym>, c: Context) {
    forall x, y :: Top(xs, x, c) && Top(xs, y, c) ==> x == y
  }

  ghost predicate Rearranged(ys: seq<Sym>, xs: seq<Sym>) {
    multiset(ys) == multiset(xs)
  }

  lemma RearrangedInputs(ys: seq<Sym>, xs: seq<Sym>, name: Name, c: Context)
    requires Rearranged(ys, xs) && |xs| > 0 && Inputs(xs, name, c)
    ensures |ys| == |xs| && Inputs(ys, name, c) && forall x :: x in ys <==> x in xs
  {
    assert |ys| == |multiset(ys)| == |multiset(xs)|;
    forall x ensures x in ys <==> x in xs {
      assert x in ys <==> x in multiset(ys);
    }
    forall i | 0 <= i < |ys| ensures Plain(ys[i]) && ys[i].name == name {
      assert ys[i] in xs;
    }
  }

  lemma WinnerIsTop(xs: seq<Sym>, name: Name, c: Context)
    requires |xs| > 0 && Inputs(xs, name, c)
    ensures Top(xs, Resolve(xs, c).sym, c)
  {
    ResolveWinner(xs, name, c);
  }

  /** Any input of the highest rank wins in some order: in front, or, undefined, at the end. */
  lemma AnyTopWins(xs: seq<Sym>, x: Sym, name: Name, c: Context) returns (ys: seq<Sym>)
    requires |xs| > 0 && Inputs(xs, name, c) && Top(xs, x, c)
    ensures Rearranged(ys, xs) && |ys| > 0 && Resolve(ys, c).sym == x
  {
    hide Resolve, Rank, Inputs, WinsAt;
    var k :| 0 <= k < |xs| && xs[k] == x;
    var rest := xs[..k] + xs[k + 1..];
    assert xs == xs[..k] + [x] + xs[k + 1..];
    ys := if Rank(x, c) == 0 then rest + [x] else [x] + rest;
    RearrangedInputs(ys, xs, name, c);
    ResolveWinner(ys, name, c);
    var j :| 0 <= j < |ys| && Resolve(ys, c).sym == ys[j] && WinsAt(ys, j, c);
    OnlyEndWins(ys, j, if Rank(x, c) == 0 then |ys| - 1 else 0, c);
  }

  /** A top input in front, or an undefined one at the end, wins. */
  lemma OnlyEndWins(ys: seq<Sym>, j: nat, k: nat, c: Context)
    requires j < |ys| && WinsAt(ys, j, c) && k < |ys| && Top(ys, ys[k], c)
    requires k == if Rank(ys[k], c) == 0 then |ys| - 1 else 0
    ensures j == k
  {
    hide Rank;
    assert ys[j] in ys && ys[k] in ys;
  }

  /** The record that is kept does not depend on the order exactly when the inputs of the highest
      rank are all equal. */
  lemma KeptInAnyOrder(xs: seq<Sym>, name: Name, c: Context)
    requires |xs| > 0 && Inputs(xs, name, c)
    ensures OneTop(xs, c) <==>
      forall ys :: |ys| > 0 && Rearranged(ys, xs) ==> Resolve(ys, c).sym == Resolve(xs, c).sym
  {
    hide Resolve, Rank;
    WinnerIsTop(xs, name, c);
    if OneTop(xs, c) {
      forall ys | |ys| > 0 && Rearranged(ys, xs) ensures Resolve(ys, c).sym == Resolve(xs, c).sym {
        RearrangedInputs(ys, xs, name, c);
        WinnerIsTop(ys, name, c);
        assert Top(xs, Resolve(ys, c).sym, c);
      }
    } else {
      var x, y :| Top(xs, x, c) && Top(xs, y, c) && x != y;
      var ys := AnyTopWins(xs, x, name, c);
      var zs := AnyTopWins(xs, y, name, c);
    }
  }

  /** Of two common definitions the first is kept, whatever their sizes. */
  lemma CommonsKeepTheFirst(x: Sym, y: Sym, c: Context)
    requires Inputs([x, y], x.name, c) && x.shndx == SHN_COMMON && y.shndx == SHN_COMMON
    requires Bind(x.info) == STB_GLOBAL && Bind(y.info) == STB_GLOBAL
    ensures Resolve([x, y], c).sym == x && Resolve([y, x], c).sym == y
  {
    hide Merge, Clashes;
    assert [x, y][0] == x && [x, y][1] == y;
    MergeByRank(x, y, c);
    MergeByRank(y, x, c);
    assert [x, y][..1] == [x] && [y, x][..1] == [y];
  }

  /** The tentative definition of a variable of this size. */
  function Common(size: nat): Sym {
    Sym([0x61], 4, size, Info(STB_GLOBAL, 1), 0, SHN_COMMON)
  }

  /** Two common definitions of different sizes: the order decides. */
  lemma OrderCanMatter()
    ensures var c := Context(4, false);
      var x, y := Common(4), Common(8);
      Inputs([x, y], [0x61], c) && Resolve([x, y], c).sym != Resolve([y, x], c).sym
  {
    var c := Context(4, false);
    var x, y := Common(4), Common(8);
    CommonsKeepTheFirst(x, y, c);
  }

  // ---------------------------------------------------------------- visibility, DLLs, .set and hidden symbols

  /** Default constrains least, then protected, hidden and internal. */
  function Constraint(x: Sym): nat {
    match Visibility(x.other)
    case 0 => 0
    case 3 => 1
    case 2 => 2
    case _ => 3
  }

  /** Nothing is defined before k. */
  ghost predicate FirstDefined(xs: seq<Sym>, k: nat) {
    k < |xs| && xs[k].Defined() && forall i :: 0 <= i < k ==> !xs[i].Defined()
  }

  /** Before the first definition the last reference is kept. */
  lemma {:induction false} ReferencesResolve(xs: seq<Sym>, name: Name, c: Context)
    requires |xs| > 0 && forall i :: 0 <= i < |xs| ==> xs[i].name == name
    requires forall i :: 0 <= i < |xs| - 1 ==> !xs[i].Defined()
    ensures Resolve(xs, c) == Outcome(xs[|xs| - 1], 0)
    decreases |xs|
  {
    var n := |xs| - 1;
    if n > 0 {
      ReferencesResolve(xs[..n], name, c);
    }
  }

  /** The record has the most constraining visibility of the first definition and all that follows
      it, whatever is kept of them, and the other bits of st_other of the first definition. */
  lemma {:induction false} VisibilityResolves(xs: seq<Sym>, name: Name, c: Context, k: nat)
    requires FirstDefined(xs, k) && forall i :: 0 <= i < |xs| ==> xs[i].name == name
    ensures var r := Resolve(xs, c).sym;
      r.Defined() && r.other / 4 == xs[k].other / 4 &&
      (forall i :: k <= i < |xs| ==> Constraint(xs[i]) <= Constraint(r)) &&
      exists i :: k <= i < |xs| && Constraint(xs[i]) == Constraint(r)
    decreases |xs|
  {
    hide Constraint, Merge, Clashes;
    var n := |xs| - 1;
    if k == n {
      ReferencesResolve(xs, name, c);
    } else {
      var ys := xs[..n];
      assert forall i :: 0 <= i < n ==> ys[i] == xs[i];
      VisibilityResolves(ys, name, c, k);
      var e := Resolve(ys, c).sym;
      MergeConstraint(e, xs[n], c);
      var i :| k <= i < |ys| && Constraint(ys[i]) == Constraint(e);
      assert Constraint(xs[i]) == Constraint(e);
    }
  }

  lemma MergeConstraint(e: Sym, x: Sym, c: Context)
    requires e.Defined()
    ensures var r := Merge(e, x, c);
      r.Defined() && r.other / 4 == e.other / 4 &&
      Constraint(r) == if Constraint(e) < Constraint(x) then Constraint(x) else Constraint(e)
  {
    assert x.Defined() || Judge(e, x, c) != Patch;
    hide Judge;
    UpperKept(e.other, MergedVisibility(Visibility(e.other), Visibility(x.other)));
  }

  lemma UpperKept(other: byte, v: nat)
    requires v < 4
    ensures var o := other as int - Visibility(other) + v; 0 <= o < 256 && o / 4 == other / 4 && o % 4 == v
  {
  }

  /** Two DLLs may define the same symbol. */
  lemma {:induction false} DllsNeverClash(xs: seq<Sym>, c: Context)
    requires |xs| > 0 && c.dll
    ensures Resolve(xs, c).clashes == 0
    decreases |xs|
  {
    hide Merge;
    if |xs| > 1 {
      DllsNeverClash(xs[..|xs| - 1], c);
    }
  }

  /** What a definition says, apart from its visibility. */
  ghost predicate SameDefinition(x: Sym, y: Sym) {
    x.value == y.value && x.size == y.size && x.info == y.info && x.shndx == y.shndx
  }

  ghost predicate Bound(xs: seq<Sym>) {
    forall i :: 0 <= i < |xs| ==> Bind(xs[i].info) == STB_GLOBAL || Bind(xs[i].info) == STB_WEAK
  }

  /** A global definition stays against hidden or internal ones, and they are no error. */
  lemma {:induction false} HiddenIgnored(xs: seq<Sym>, c: Context)
    requires |xs| > 0 && Bound(xs) && xs[0].Defined() && Bind(xs[0].info) == STB_GLOBAL
    requires forall i :: 1 <= i < |xs| ==> Constraint(xs[i]) >= 2
    ensures SameDefinition(Resolve(xs, c).sym, xs[0]) && Resolve(xs, c).clashes == 0
    decreases |xs|
  {
    var n := |xs| - 1;
    if n > 0 {
      HiddenIgnored(xs[..n], c);
      assert Constraint(xs[n]) >= 2;
    }
  }

  /** A symbol from an assembler .set is redefined by each further strong definition that is not
      hidden: the last one is kept, and that is no error. */
  lemma {:induction false} SetRedefined(xs: seq<Sym>, c: Context)
    requires |xs| > 0 && !c.dll && 0 < c.bss < SHN_LORESERVE && AsmSet(xs[0].other)
    requires forall i :: 0 <= i < |xs| ==> Rank(xs[i], c) == 3 && Constraint(xs[i]) < 2
    ensures SameDefinition(Resolve(xs, c).sym, xs[|xs| - 1]) && Resolve(xs, c).clashes == 0
    ensures AsmSet(Resolve(xs, c).sym.other)
    decreases |xs|
  {
    var n := |xs| - 1;
    if n > 0 {
      SetRedefined(xs[..n], c);
      MergeConstraint(Resolve(xs[..n], c).sym, xs[n], c);
      assert Constraint(xs[n]) < 2;
    }
  }

  /** A definition in a reserved section, an absolute one, is not data that takes over from a common
      symbol or one in bss: it is reported. A common symbol that comes after it is ignored. */
  lemma AbsoluteIsNotData(x: Sym, y: Sym, c: Context)
    requires !c.dll && 0 < c.bss < SHN_LORESERVE && Bound([x, y]) && Rank(x, c) == 2 && x.name == y.name
    requires y.shndx >= SHN_LORESERVE && y.shndx != SHN_COMMON && Bind(y.info) == STB_GLOBAL
    requires Constraint(x) < 2 && Constraint(y) < 2 && !AsmSet(x.other)
    ensures SameDefinition(Resolve([x, y], c).sym, x) && Resolve([x, y], c).clashes == 1
    ensures SameDefinition(Resolve([y, x], c).sym, y) && Resolve([y, x], c).clashes == 0
  {
    assert [x, y][..1] == [x] && [y, x][..1] == [y];
    assert Resolve([x], c) == Outcome(x, 0) && Resolve([y], c) == Outcome(y, 0);
  }

  // ---------------------------------------------------------------- a file that is merged

  /** The symbols that meet in the record of this name, in order: the one that is there, and those
      of the file. */
  ghost function Uses(t: seq<Sym>, file: seq<Sym>, name: Name, obj: bool): seq<Sym>
    decreases |file|
  {
    if file == [] then
      if Find(t, name) == 0 then [] else [t[Find(t, name)]]
    else
      var n := |file| - 1;
      Uses(t, file[..n], name, obj) + (if Shared(file[n], name) then [Globalized(file[n], obj)] else [])
  }

  /** After a file is merged the record of a name is what its uses resolve to. */
  lemma {:induction false} MergeResolves(t: seq<Sym>, file: seq<Sym>, obj: bool, c: Context, name: Name)
    requires UniqueNames(t)
    ensures var u := MergeFile(t, file, obj, c).table;
      var xs := Uses(t, file, name, obj);
      if xs == [] then Find(u, name) == 0 else Find(u, name) != 0 && u[Find(u, name)] == Resolve(xs, c).sym
    decreases |file|
  {
    hide MergeFile, UniqueNames, Continues, Kept, Shares, Insert, Globalized, Find, Merge, Clashes;
    MergeUnfolds(t, file, obj, c);
    if file != [] {
      var n := |file| - 1;
      MergeFileKeeps(t, file[..n], obj, c);
      MergeResolves(t, file[..n], obj, c, name);
      var u, xs := MergeFile(t, file[..n], obj, c).table, Uses(t, file[..n], name, obj);
      if Shared(file[n], name) {
        var g := Globalized(file[n], obj);
        InsertShared(u, file[n], obj, c);
        ResolveNext(xs, g, c);
        hide Resolve;
        assert Uses(t, file, name, obj) == xs + [g];
      } else {
        InsertOther(u, file[n], obj, c, name);
        assert Uses(t, file, name, obj) == xs;
      }
    }
  }

  lemma ResolveNext(xs: seq<Sym>, x: Sym, c: Context)
    ensures Resolve(xs + [x], c).sym == if xs == [] then x else Merge(Resolve(xs, c).sym, x, c)
  {
    assert (xs + [x])[..|xs|] == xs;
  }

  lemma InsertShared(t: seq<Sym>, s: Sym, obj: bool, c: Context)
    requires UniqueNames(t) && Shared(s, s.name)
    ensures var g, k := Globalized(s, obj), Find(t, s.name);
      var r := Insert(t, g, c);
      Find(r.table, s.name) == r.index && r.index != 0 && r.table[r.index] == if k == 0 then g else Merge(t[k], g, c)
  {
    hide Merge, Clashes, UniqueNames, Find;
    var g := Globalized(s, obj);
    var r := Insert(t, g, c);
    InsertContinues(t, g, c);
    assert g.Hashed();
    FindUnique(r.table, r.index);
    assert r.index != 0 && r.table[r.index].name == s.name;
    assert r.table[r.index] == if Find(t, s.name) == 0 then g else Merge(t[Find(t, s.name)], g, c);
  }

  /** x is a symbol of this name that takes part in the merge. */
  ghost predicate Meets(t: seq<Sym>, file: seq<Sym>, name: Name, x: Sym) {
    Shared(x, name) && ((x.Hashed() && x in t) || x in file)
  }

  ghost predicate AllPlain(t: seq<Sym>, file: seq<Sym>, name: Name, c: Context) {
    0 < c.bss < SHN_LORESERVE && !c.dll && forall x :: Meets(t, file, name, x) ==> PlainUse(x)
  }

  /** As Plain, with local references. */
  ghost predicate PlainUse(x: Sym) {
    (Bind(x.info) == STB_GLOBAL || Bind(x.info) == STB_WEAK || (Bind(x.info) == STB_LOCAL && !x.Defined())) &&
    x.other == 0 && (x.shndx < SHN_LORESERVE || x.shndx == SHN_COMMON)
  }

  /** The definitions among the uses are those of the table and of the file. */
  lemma {:induction false} UsesMeet(t: seq<Sym>, file: seq<Sym>, name: Name, obj: bool, c: Context)
    requires UniqueNames(t) && AllPlain(t, file, name, c)
    ensures var xs := Uses(t, file, name, obj);
      Inputs(xs, name, c) && forall x: Sym :: x.Defined() ==> (x in xs <==> Meets(t, file, name, x))
    decreases |file|
  {
    if file == [] {
      OldUse(t, name, c);
    } else {
      var n := |file| - 1;
      FewerMeet(t, file, name);
      UsesMeet(t, file[..n], name, obj, c);
      var ys := Uses(t, file[..n], name, obj);
      hide UniqueNames, Globalized, Plain, PlainUse, Find, Meets;
      if Shared(file[n], name) {
        PlainGlobalized(file[n], obj);
        MoreInputs(ys, Globalized(file[n], obj), name, c);
      }
    }
  }

  lemma FewerMeet(t: seq<Sym>, file: seq<Sym>, name: Name)
    requires file != []
    ensures var n := |file| - 1;
      forall x :: Meets(t, file, name, x) <==> Meets(t, file[..n], name, x) || (Shared(x, name) && x == file[n])
  {
    var n := |file| - 1;
    assert file == file[..n] + [file[n]];
  }

  lemma MoreInputs(xs: seq<Sym>, x: Sym, name: Name, c: Context)
    requires Inputs(xs, name, c) && Plain(x) && x.name == name
    ensures Inputs(xs + [x], name, c) && forall y :: y in xs + [x] <==> y in xs || y == x
  {
    hide Plain;
  }

  lemma OldUse(t: seq<Sym>, name: Name, c: Context)
    requires UniqueNames(t) && AllPlain(t, [], name, c)
    ensures var xs := Uses(t, [], name, false);
      Inputs(xs, name, c) && forall x :: x in xs <==> Meets(t, [], name, x)
  {
    forall x | Meets(t, [], name, x) ensures Find(t, name) != 0 && x == t[Find(t, name)] {
      var i :| 0 <= i < |t| && t[i] == x;
      FindUnique(t, i);
    }
    if Find(t, name) != 0 {
      assert Meets(t, [], name, t[Find(t, name)]);
    }
  }

  lemma PlainGlobalized(x: Sym, obj: bool)
    requires PlainUse(x)
    ensures Plain(Globalized(x, obj)) && Globalized(x, obj).name == x.name
    ensures Globalized(x, obj).Defined() == x.Defined() && (x.Defined() ==> Globalized(x, obj) == x)
  {
  }

  /** A name with a definition: the record kept is a definition of the table or of the file, and
      none of them has a higher rank; the one of the table stays if none of the file has. */
  lemma DefinitionKept(t: seq<Sym>, file: seq<Sym>, obj: bool, c: Context, name: Name, d: Sym)
    requires UniqueNames(t) && AllPlain(t, file, name, c) && Meets(t, file, name, d) && d.Defined()
    ensures var u := MergeFile(t, file, obj, c).table;
      var r := u[Find(u, name)];
      Find(u, name) != 0 && r.Defined() && Meets(t, file, name, r) &&
      (forall x: Sym :: x.Defined() && Meets(t, file, name, x) ==> Rank(x, c) <= Rank(r, c)) &&
      (Find(t, name) != 0 && Rank(t[Find(t, name)], c) == Rank(r, c) ==> r == t[Find(t, name)])
  {
    hide MergeFile, Meets, Resolve, Inputs, Plain;
    MergeResolves(t, file, obj, c, name);
    UsesMeet(t, file, name, obj, c);
    var xs := Uses(t, file, name, obj);
    ResolveWinner(xs, name, c);
    UsesStart(t, file, name, obj);
    var r := Resolve(xs, c).sym;
    assert d in xs && r in xs;
  }

  lemma {:induction false} UsesStart(t: seq<Sym>, file: seq<Sym>, name: Name, obj: bool)
    ensures Find(t, name) != 0 ==> Uses(t, file, name, obj) != [] && Uses(t, file, name, obj)[0] == t[Find(t, name)]
    decreases |file|
  {
    hide Globalized, Find, Shared;
    if file != [] {
      UsesStart(t, file[..|file| - 1], name, obj);
    }
  }
}
