/** What merging a finished file into the symbol table preserves (tccelf_end_file). */
module FileMerge {
  import opened Symbols
  import opened Relocations

  /** The null symbol comes first and no two hashed symbols share a name: the kind of table that
      find_elf_sym and set_elf_sym maintain. */
  ghost predicate UniqueNames(t: seq<Sym>) {
    |t| >= 1 && !t[0].Hashed() &&
    forall i, j :: 0 <= i < j < |t| && t[i].Hashed() && t[j].Hashed() ==> t[i].name != t[j].name
  }

  /** u continues t: names and kinds stay, local symbols are not touched, and nothing that was
      defined becomes undefined. */
  ghost predicate Continues(t: seq<Sym>, u: seq<Sym>) {
    |t| <= |u| && forall k :: 0 <= k < |t| ==>
      u[k].name == t[k].name && u[k].Hashed() == t[k].Hashed() &&
      (!t[k].Hashed() ==> u[k] == t[k]) && (t[k].Defined() ==> u[k].Defined())
  }

  lemma FindUnique(t: seq<Sym>, k: nat)
    requires UniqueNames(t) && 1 <= k < |t| && t[k].Hashed()
    ensures Find(t, t[k].name) == k
  {
    var j := Find(t, t[k].name);
    assert j >= k;
  }

  lemma InsertContinues(t: seq<Sym>, s: Sym, c: Context)
    requires UniqueNames(t)
    ensures var r := Insert(t, s, c);
      UniqueNames(r.table) && Continues(t, r.table) && r.index >= 1 &&
      r.table[r.index].Hashed() == s.Hashed() &&
      (!s.Hashed() ==> r.index == |t| && r.table == t + [s]) &&
      (s.Defined() ==> r.table[r.index].Defined())
  {
    var k := if s.Hashed() then Find(t, s.name) else 0;
    if k != 0 {
      var e := Merge(t[k], s, c);
      assert e.Hashed() && (t[k].Defined() || s.Defined() ==> e.Defined());
    }
  }

  /** The index given to symbol i of the file denotes that symbol. */
  ghost predicate Kept(m: Merged, s: Sym, index: nat, base: nat) {
    1 <= index < |m.table| && m.table[index].name == s.name &&
    (s.Defined() ==> m.table[index].Defined()) &&
    if !s.Hashed() && s.Defined() then base <= index && m.table[index] == s
    else m.table[index].Hashed() && index == Find(m.table, s.name)
  }

  /** Only symbols that are hashed can be shared by two symbols of the file. */
  ghost predicate Shares(m: Merged) {
    forall i, j :: 0 <= i < j < |m.tr| && m.tr[i] == m.tr[j] && m.tr[i] < |m.table| ==> m.table[m.tr[i]].Hashed()
  }

  /** tccelf_end_file loses nothing: symbols already in the table keep their index, every local
      definition of the file gets a record of its own, equal to the old one, every other symbol
      the one record find_elf_sym returns for its name, and no definition disappears. */
  lemma {:induction false} MergeFileKeeps(t: seq<Sym>, file: seq<Sym>, obj: bool, c: Context)
    requires UniqueNames(t)
    ensures var m := MergeFile(t, file, obj, c);
      UniqueNames(m.table) && Continues(t, m.table) &&
      (forall i :: 0 <= i < |file| ==> Kept(m, file[i], m.tr[i], |t|)) &&
      Shares(m)
    decreases |file|
  {
    hide MergeFile, UniqueNames, Continues, Kept, Shares, Insert, Globalized;
    MergeUnfolds(t, file, obj, c);
    if file == [] {
      NothingMerged(t);
    } else {
      var n := |file| - 1;
      MergeFileKeeps(t, file[..n], obj, c);
      assert forall i :: 0 <= i < n ==> file[..n][i] == file[i];
      MergeOneKeeps(t, MergeFile(t, file[..n], obj, c), file, obj, c);
    }
  }

  lemma MergeUnfolds(t: seq<Sym>, file: seq<Sym>, obj: bool, c: Context)
    ensures file == [] ==> MergeFile(t, file, obj, c) == Merged(t, [], 0)
    ensures file != [] ==>
      var m := MergeFile(t, file[..|file| - 1], obj, c);
      var r := Insert(m.table, Globalized(file[|file| - 1], obj), c);
      MergeFile(t, file, obj, c) == Merged(r.table, m.tr + [r.index], m.clashes + (if r.clash then 1 else 0))
  {
    hide Insert, Globalized;
  }

  lemma NothingMerged(t: seq<Sym>)
    ensures Continues(t, t) && Shares(Merged(t, [], 0))
  {
  }

  lemma MergeOneKeeps(t: seq<Sym>, m: Merged, file: seq<Sym>, obj: bool, c: Context)
    requires |file| >= 1 && |m.tr| == |file| - 1 && UniqueNames(t) && UniqueNames(m.table) && Continues(t, m.table)
    requires forall i :: 0 <= i < |m.tr| ==> Kept(m, file[i], m.tr[i], |t|)
    requires Shares(m)
    ensures var r := Insert(m.table, Globalized(file[|m.tr|], obj), c);
      var m' := Merged(r.table, m.tr + [r.index], m.clashes + (if r.clash then 1 else 0));
      UniqueNames(m'.table) && Continues(t, m'.table) &&
      (forall i :: 0 <= i < |file| ==> Kept(m', file[i], m'.tr[i], |t|)) &&
      Shares(m')
  {
    hide Insert, Find;
    var s := Globalized(file[|m.tr|], obj);
    var r := Insert(m.table, s, c);
    InsertContinues(m.table, s, c);
    var m' := Merged(r.table, m.tr + [r.index], m.clashes + (if r.clash then 1 else 0));
    forall i | 0 <= i < |file| ensures Kept(m', file[i], m'.tr[i], |t|) {
      if m'.table[m'.tr[i]].Hashed() {
        FindUnique(m'.table, m'.tr[i]);
      }
    }
  }

  /** After tccelf_end_file a relocation against a symbol of the file names that symbol, exactly
      when its new index fits 24 bits; one against an older symbol is not changed; types stay. */
  lemma RelocationKeepsSymbol(t: seq<Sym>, file: seq<Sym>, obj: bool, c: Context, was: Rel, now: Rel)
    requires UniqueNames(t)
    requires RSym(was.info) < |t| + |file|
    requires now == Redirect(was, MergeFile(t, file, obj, c).tr, |t|)
    ensures now.offset == was.offset && RType(now.info) == RType(was.info)
    ensures var m, old' := MergeFile(t, file, obj, c), RSym(was.info);
      old' < |t| ==> now == was && m.table[old'].name == t[old'].name
    ensures var m, old' := MergeFile(t, file, obj, c), RSym(was.info);
      old' >= |t| ==>
        var k := m.tr[old' - |t|];
        k < |m.table| && Kept(m, file[old' - |t|], k, |t|) && (RSym(now.info) == k <==> k < SYM_LIMIT)
  {
    hide MergeFile, Kept, UniqueNames, RInfo;
    MergeFileKeeps(t, file, obj, c);
  }

  // ---------------------------------------------------------------- references

  /** The symbol takes part in lookup once the file is merged: it is not a local definition. */
  predicate Shared(s: Sym, name: Name) {
    s.name == name && (s.Hashed() || !s.Defined())
  }

  ghost predicate NoDefinition(t: seq<Sym>, name: Name) {
    forall j :: 0 <= j < |t| && t[j].Hashed() && t[j].name == name ==> !t[j].Defined()
  }

  ghost predicate OnlyReferences(file: seq<Sym>, name: Name) {
    forall i :: 0 <= i < |file| && Shared(file[i], name) ==> !file[i].Defined()
  }

  /** Symbol k is the last of this name. */
  ghost predicate LastShared(file: seq<Sym>, name: Name, k: nat) {
    k < |file| && Shared(file[k], name) && forall i :: k < i < |file| ==> !Shared(file[i], name)
  }

  /** The record r of a reference s: a local reference has become global, and a global one is
      without a type in an object file; all else is as it was. */
  ghost predicate RefersLike(r: Sym, s: Sym, obj: bool) {
    !r.Defined() && r.name == s.name && r.value == s.value && r.size == s.size && r.other == s.other &&
    Bind(r.info) == (if Bind(s.info) == STB_LOCAL then STB_GLOBAL else Bind(s.info)) &&
    Type(r.info) == (if obj && Bind(r.info) == STB_GLOBAL then STT_NOTYPE else Type(s.info))
  }

  lemma {:induction false} StaysUndefined(t: seq<Sym>, file: seq<Sym>, obj: bool, c: Context, name: Name)
    requires UniqueNames(t) && NoDefinition(t, name) && OnlyReferences(file, name)
    ensures NoDefinition(MergeFile(t, file, obj, c).table, name)
    decreases |file|
  {
    hide MergeFile, UniqueNames, Insert, Merge, Globalized;
    MergeUnfolds(t, file, obj, c);
    if file != [] {
      var n := |file| - 1;
      assert forall i :: 0 <= i < n ==> file[..n][i] == file[i];
      StaysUndefined(t, file[..n], obj, c, name);
      InsertUndefined(MergeFile(t, file[..n], obj, c).table, file[n], obj, c, name);
    }
  }

  lemma InsertUndefined(t: seq<Sym>, s: Sym, obj: bool, c: Context, name: Name)
    requires NoDefinition(t, name) && (Shared(s, name) ==> !s.Defined())
    ensures NoDefinition(Insert(t, Globalized(s, obj), c).table, name)
  {
  }

  /** A name that nobody defines keeps the last reference of the file: weak exactly when that one is
      weak, and with its value, size and visibility. */
  lemma {:induction false} ReferenceKept(t: seq<Sym>, file: seq<Sym>, obj: bool, c: Context, name: Name, k: nat)
    requires UniqueNames(t) && NoDefinition(t, name) && OnlyReferences(file, name) && LastShared(file, name, k)
    ensures var m := MergeFile(t, file, obj, c);
      1 <= m.tr[k] < |m.table| && m.tr[k] == Find(m.table, name) && RefersLike(m.table[m.tr[k]], file[k], obj) &&
      (Bind(m.table[m.tr[k]].info) == STB_WEAK <==> Bind(file[k].info) == STB_WEAK)
    decreases |file|
  {
    hide MergeFile, UniqueNames, Continues, Kept, Shares, Insert, Globalized, RefersLike;
    MergeUnfolds(t, file, obj, c);
    MergeFileKeeps(t, file, obj, c);
    var n := |file| - 1;
    MergeFileKeeps(t, file[..n], obj, c);
    assert forall i :: 0 <= i < n ==> file[..n][i] == file[i];
    var m := MergeFile(t, file[..n], obj, c);
    if k == n {
      StaysUndefined(t, file[..n], obj, c, name);
      InsertReference(m.table, file[n], obj, c);
    } else {
      ReferenceKept(t, file[..n], obj, c, name, k);
      InsertOther(m.table, file[n], obj, c, name);
    }
    RefersWeak(MergeFile(t, file, obj, c).table[MergeFile(t, file, obj, c).tr[k]], file[k], obj);
  }

  lemma RefersWeak(r: Sym, s: Sym, obj: bool)
    requires RefersLike(r, s, obj)
    ensures Bind(r.info) == STB_WEAK <==> Bind(s.info) == STB_WEAK
  {
  }

  lemma InsertReference(t: seq<Sym>, s: Sym, obj: bool, c: Context)
    requires UniqueNames(t) && NoDefinition(t, s.name) && !s.Defined()
    ensures var r := Insert(t, Globalized(s, obj), c);
      1 <= r.index < |r.table| && r.index == Find(r.table, s.name) && RefersLike(r.table[r.index], s, obj)
  {
    var g := Globalized(s, obj);
    var r := Insert(t, g, c);
    InsertContinues(t, g, c);
    hide Find;
    FindUnique(r.table, r.index);
  }

  /** A symbol of another name leaves the record of this name as it is. */
  lemma InsertOther(t: seq<Sym>, s: Sym, obj: bool, c: Context, name: Name)
    requires UniqueNames(t) && !Shared(s, name)
    ensures var r := Insert(t, Globalized(s, obj), c);
      Find(r.table, name) == Find(t, name) && r.table[Find(t, name)] == t[Find(t, name)]
  {
    var g := Globalized(s, obj);
    var r := Insert(t, g, c);
    InsertContinues(t, g, c);
    var j := Find(t, name);
    if j != 0 {
      assert r.table[j].Hashed() && r.table[j].name == name;
      FindUnique(r.table, j);
    }
  }

  /** A record of a name that the file does not share is not touched. */
  lemma {:induction false} OthersUntouched(t: seq<Sym>, file: seq<Sym>, obj: bool, c: Context, k: nat)
    requires UniqueNames(t) && k < |t| && t[k].Hashed() && forall i :: 0 <= i < |file| ==> !Shared(file[i], t[k].name)
    ensures MergeFile(t, file, obj, c).table[k] == t[k]
    decreases |file|
  {
    hide MergeFile, UniqueNames, Continues, Kept, Shares, Insert, Globalized;
    MergeUnfolds(t, file, obj, c);
    if file != [] {
      var n := |file| - 1;
      assert forall i :: 0 <= i < n ==> file[..n][i] == file[i];
      OthersUntouched(t, file[..n], obj, c, k);
      MergeFileKeeps(t, file[..n], obj, c);
      var u := MergeFile(t, file[..n], obj, c).table;
      NullFirst(t, k);
      FindUnique(u, k);
      InsertOther(u, file[n], obj, c, t[k].name);
    }
  }

  lemma NullFirst(t: seq<Sym>, k: nat)
    requires UniqueNames(t) && k < |t| && t[k].Hashed()
    ensures k >= 1
  {
  }
}
