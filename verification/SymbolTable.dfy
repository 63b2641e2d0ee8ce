/** The ELF symbol table with its string table and intrusive SysV hash table (tccelf.c). */
module SymbolTable {
  import opened Bits
  import opened Bytes
  import opened Symbols
  import opened HashChains
  import opened Permutations
  import opened Relocations

  function Max(x: int, y: int): int {
    if x < y then y else x
  }

  // ---------------------------------------------------------------- strings

  /** The C string at s[off..]. */
  function CStr(s: seq<byte>, off: nat): Name
    decreases |s| - off
  {
    if off >= |s| || s[off] == 0 then [] else [s[off]] + CStr(s, off + 1)
  }

  /** name, with its terminator, stands at offset off. */
  ghost predicate NameAt(s: seq<byte>, off: nat, name: Name) {
    off + |name| < |s| && s[off..off + |name|] == name && s[off + |name|] == 0
  }

  lemma {:induction false} CStrReads(s: seq<byte>, off: nat, name: Name)
    requires NameAt(s, off, name)
    ensures CStr(s, off) == name
    decreases |name|
  {
    assert forall i :: 0 <= i < |name| ==> s[off + i] == s[off..off + |name|][i] == name[i];
    if name != [] {
      CStrReads(s, off + 1, name[1..]);
    }
  }

  // ---------------------------------------------------------------- hashing

  /** One turn of the loop of elf_hash. */
  function ElfHashStep(h: nat, c: byte): nat {
    var h1 := Wrap32(16 * h + c);
    var g := And(h1, 0xf000_0000);
    var h2 := if g != 0 then Xor(h1, g / 0x100_0000) else h1;
    h2 - And(h2, g)
  }

  function ElfHash(name: Name): nat
    decreases |name|
  {
    if name == [] then 0 else ElfHashStep(ElfHash(name[..|name| - 1]), name[|name| - 1])
  }

  /** One turn, arithmetically: the top four bits go, and change the bits 4 to 7. */
  lemma ElfStepMeans(h: nat, c: byte)
    ensures var x := (16 * h + c) % WORD;
      ElfHashStep(h, c) == Xor(x % 0x1000_0000, x / 0x1000_0000 * 16) < 0x1000_0000
  {
    hide And, Xor, Pow2;
    var x := (16 * h + c) % WORD;
    var top, low := x / 0x1000_0000, x % 0x1000_0000;
    Pow2Of28();
    AndHigh(top, low, 15, 28);
    AndNibble(top);
    XorLow(low, top, 16 * top, 28);
    XorBelow(low, 16 * top, 28);
    AndHigh(top, Xor(low, 16 * top), top, 28);
    AndSelf(top);
    if top == 0 {
      XorZero(low);
    }
  }

  /** The hash of a name whose bytes are a number to the base 16 below 2^28 is that number. */
  lemma {:induction false} ElfHashShort(name: Name)
    requires Digits(name, 16) < 0x1000_0000
    ensures ElfHash(name) == Digits(name, 16)
    decreases |name|
  {
    hide Digits, ElfHashStep, Xor;
    if name == [] {
      DigitsNone();
    } else {
      var n := |name| - 1;
      var d := Digits(name[..n], 16);
      DigitsNext(name, 16);
      ElfHashShort(name[..n]);
      assert ElfHash(name) == ElfHashStep(d, name[n]);
      ElfStepSmall(d, name[n]);
    }
  }

  lemma DigitsNone()
    ensures Digits([], 16) == 0
  {
  }

  lemma ElfStepSmall(h: nat, c: byte)
    requires 16 * h + c < 0x1000_0000
    ensures ElfHashStep(h, c) == 16 * h + c
  {
    ElfStepMeans(h, c);
    XorZero(16 * h + c);
    hide ElfHashStep, Xor;
  }

  function Bucket(name: Name, nb: nat): (h: nat)
    requires nb > 0
    ensures h < nb
  {
    ElfHash(name) % nb
  }

  method ComputeElfHash(name: Name) returns (h: nat)
    ensures h == ElfHash(name)
  {
    h := 0;
    for i := 0 to |name|
      invariant h == ElfHash(name[..i])
    {
      assert name[..i + 1][..i] == name[..i];
      h := Wrap32(16 * h + name[i]);
      var g := And(h, 0xf000_0000);
      if g != 0 {
        h := Xor(h, g / 0x100_0000);
      }
      h := h - And(h, g);
    }
    assert name[..|name|] == name;
  }

  /** The bucket of each symbol, -1 for the local ones. */
  ghost function Keys(t: seq<Sym>, nb: nat): (keys: seq<int>)
    requires nb > 0
    ensures |keys| == |t| && forall i :: 0 <= i < |t| ==> keys[i] == KeyOf(t[i], nb) && -1 <= keys[i] < nb
  {
    seq(|t|, i requires 0 <= i < |t| => KeyOf(t[i], nb))
  }

  function KeyOf(s: Sym, nb: nat): (key: int)
    requires nb > 0
    ensures -1 <= key < nb && (key >= 0 <==> s.Hashed())
  {
    if s.Hashed() then Bucket(s.name, nb) else -1
  }

  /** Following the chain loses no symbol of the wanted name. */
  lemma {:induction false} ChainSkips(t: seq<Sym>, name: Name, nb: nat, k: nat)
    requires nb > 0 && k <= |t|
    ensures var j := Latest(Keys(t, nb), Bucket(name, nb), k);
      FindBelow(t, name, k) == if j == 0 then 0 else if t[j].name == name then j else FindBelow(t, name, j)
  {
    if k > 1 && Keys(t, nb)[k - 1] != Bucket(name, nb) {
      ChainSkips(t, name, nb, k - 1);
    }
  }

  ghost function CountHashed(t: seq<Sym>): nat {
    if t == [] then 0 else CountHashed(t[..|t| - 1]) + (if t[|t| - 1].Hashed() then 1 else 0)
  }

  lemma CountHashedAppend(t: seq<Sym>, s: Sym)
    ensures CountHashed(t + [s]) == CountHashed(t) + (if s.Hashed() then 1 else 0)
  {
    assert (t + [s])[..|t|] == t;
  }

  /** Bindings may change between global and weak while names stay: chains are unaffected. */
  ghost predicate SameKeys(t: seq<Sym>, u: seq<Sym>) {
    |t| == |u| && forall i :: 0 <= i < |t| ==> t[i].Hashed() == u[i].Hashed() && t[i].name == u[i].name
  }

  lemma {:induction false} CountSameKeys(t: seq<Sym>, u: seq<Sym>)
    requires SameKeys(t, u)
    ensures CountHashed(t) == CountHashed(u)
    decreases |t|
  {
    if t != [] {
      CountSameKeys(t[..|t| - 1], u[..|t| - 1]);
    }
  }

  ghost function HashedPlaces(t: seq<Sym>): set<nat> {
    set i: nat | i < |t| && t[i].Hashed()
  }

  lemma {:induction false} CountIsSize(t: seq<Sym>)
    ensures CountHashed(t) == |HashedPlaces(t)|
    decreases |t|
  {
    if t != [] {
      var n := |t| - 1;
      CountIsSize(t[..n]);
      assert HashedPlaces(t) == HashedPlaces(t[..n]) + (if t[n].Hashed() then {n} else {});
    }
  }

  lemma {:induction false} ImageSize(s: set<nat>, tr: seq<nat>)
    requires forall i :: i in s ==> i < |tr|
    requires forall i, j :: 0 <= i < j < |tr| ==> tr[i] != tr[j]
    ensures |set i | i in s :: tr[i]| == |s|
    decreases |s|
  {
    if x :| x in s {
      ImageSize(s - {x}, tr);
      assert (set i | i in s :: tr[i]) == (set i | i in s - {x} :: tr[i]) + {tr[x]};
    }
  }

  /** A reordering keeps the number of hashed symbols. */
  lemma CountMoved(t: seq<Sym>, u: seq<Sym>, tr: seq<nat>)
    requires Moved(t, u, tr)
    ensures CountHashed(u) == CountHashed(t)
  {
    CountIsSize(t);
    CountIsSize(u);
    ImageSize(HashedPlaces(t), tr);
    var image := set i | i in HashedPlaces(t) :: tr[i];
    forall p | p in HashedPlaces(u) ensures p in image {
      var i := Origin(tr, p);
      assert i in HashedPlaces(t);
    }
    assert image == HashedPlaces(u);
  }

  /** The words of the hash section: bucket count, symbol count, buckets, links. */
  ghost predicate HashOk(words: seq<nat>, t: seq<Sym>) {
    |words| >= 3 && words[0] >= 1 && words[1] == |t| && |words| == 2 + words[0] + |t| &&
    Linked(words, Keys(t, words[0]), words[0], |t|)
  }

  lemma HashOkSameKeys(words: seq<nat>, t: seq<Sym>, u: seq<Sym>)
    requires HashOk(words, t) && SameKeys(t, u)
    ensures HashOk(words, u)
  {
    assert Keys(u, words[0]) == Keys(t, words[0]);
  }

  /** One more symbol is linked in front of its bucket. */
  lemma HashAppend(words: seq<nat>, t: seq<Sym>, s: Sym)
    requires HashOk(words, t) && |t| >= 1
    ensures HashOk(Push(words + [0], words[0], |t|, KeyOf(s, words[0]))[1 := |t| + 1], t + [s])
  {
    hide Linked, Bucket, Push;
    var nb, key := words[0], KeyOf(s, words[0]);
    var keys := Keys(t + [s], nb);
    assert keys == Keys(t, nb) + [key];
    LinkedGrows(words, Keys(t, nb), nb, key, 0);
    PushLinks(words + [0], keys, nb, |t|);
    LinkedHeader(Push(words + [0], nb, |t|, key), keys, nb, |t| + 1, |t| + 1);
  }

  // ---------------------------------------------------------------- the table

  datatype ElfSym = ElfSym(stName: nat, value: nat, size: nat, info: byte, other: byte, shndx: nat)

  /** The record e names and describes the symbol s. */
  ghost predicate Denotes(e: ElfSym, s: Sym, strs: seq<byte>) {
    NameAt(strs, e.stName, s.name) &&
    e.value == s.value && e.size == s.size && e.info == s.info && e.other == s.other && e.shndx == s.shndx
  }

  ghost predicate Table(syms: seq<ElfSym>, t: seq<Sym>, strs: seq<byte>) {
    |t| <= |syms| && forall i :: 0 <= i < |t| ==> Denotes(syms[i], t[i], strs)
  }

  /** Names of the symbols lo..|t| that are not empty stand one after another above limit. */
  ghost predicate Laid(syms: seq<ElfSym>, t: seq<Sym>, lo: nat, limit: nat) {
    |t| <= |syms| &&
    (forall i :: lo <= i < |t| ==> if t[i].name == [] then syms[i].stName == 0 else limit <= syms[i].stName) &&
    (forall i, j :: lo <= i < j < |t| && t[i].name != [] && t[j].name != [] ==>
      syms[i].stName + |t[i].name| + 1 <= syms[j].stName)
  }

  lemma TableExtends(syms: seq<ElfSym>, t: seq<Sym>, strs: seq<byte>, longer: seq<byte>)
    requires Table(syms, t, strs) && strs <= longer
    ensures Table(syms, t, longer)
  {
    forall i | 0 <= i < |t| ensures NameAt(longer, syms[i].stName, t[i].name) {
      var off := syms[i].stName;
      assert longer[off..off + |t[i].name|] == strs[off..off + |t[i].name|];
    }
  }

  /** A record stored at position |t|, where one of another file may have stood. */
  function Store(syms: seq<ElfSym>, k: nat, e: ElfSym): (r: seq<ElfSym>)
    requires k <= |syms|
    ensures |r| == Max(|syms|, k + 1) && r[..k] == syms[..k] && r[k] == e
    ensures forall i :: k < i < |syms| ==> r[i] == syms[i]
  {
    syms[..k] + [e] + (if k < |syms| then syms[k + 1..] else [])
  }

  lemma TableAppend(syms: seq<ElfSym>, t: seq<Sym>, strs: seq<byte>, e: ElfSym, s: Sym)
    requires Table(syms, t, strs) && Denotes(e, s, strs)
    ensures Table(Store(syms, |t|, e), t + [s], strs)
  {
    var r := Store(syms, |t|, e);
    assert forall i :: 0 <= i < |t| ==> r[i] == syms[i];
  }

  /** Records and symbols moved alike still belong together. */
  lemma TableMoved(syms: seq<ElfSym>, t: seq<Sym>, strs: seq<byte>, moved: seq<ElfSym>, u: seq<Sym>, tr: seq<nat>)
    requires Table(syms, t, strs) && Moved(t, u, tr) && |t| <= |moved|
    requires forall i :: 0 <= i < |t| ==> moved[tr[i]] == syms[i]
    ensures Table(moved, u, strs)
  {
    hide Denotes;
    forall p | 0 <= p < |u| ensures Denotes(moved[p], u[p], strs) {
      var i := Origin(tr, p);
      assert Denotes(syms[i], t[i], strs);
    }
  }

  lemma DenotesByName(e: ElfSym, s: Sym, strs: seq<byte>)
    requires NameAt(strs, e.stName, s.name)
    requires e == ElfSym(e.stName, s.value, s.size, s.info, s.other, s.shndx)
    ensures Denotes(e, s, strs)
  {
  }

  /** A prefix of the table does not depend on later records. */
  lemma TableShrink(syms: seq<ElfSym>, t: seq<Sym>, changed: seq<ElfSym>, k: nat, strs: seq<byte>)
    requires k <= |t| && Table(syms, t[..k], strs) && k <= |changed| && changed[..k] == syms[..k]
    ensures Table(changed, t[..k], strs)
  {
    assert forall i :: 0 <= i < k ==> changed[i] == changed[..k][i] == syms[i];
  }

  lemma TablePatch(syms: seq<ElfSym>, t: seq<Sym>, strs: seq<byte>, k: nat, e: ElfSym, s: Sym)
    requires Table(syms, t, strs) && k < |t| && Denotes(e, s, strs)
    ensures Table(syms[k := e], t[k := s], strs)
  {
  }

  lemma LaidAppend(syms: seq<ElfSym>, t: seq<Sym>, lo: nat, limit: nat, strs: seq<byte>, e: ElfSym, s: Sym)
    requires Laid(syms, t, lo, limit) && Table(syms, t, strs)
    requires if s.name == [] then e.stName == 0 else limit <= |strs| <= e.stName
    ensures Laid(Store(syms, |t|, e), t + [s], lo, limit)
  {
    var r := Store(syms, |t|, e);
    assert forall i :: 0 <= i < |t| ==> r[i] == syms[i] && Denotes(syms[i], t[i], strs);
  }

  lemma TableFrame(syms: seq<ElfSym>, t: seq<Sym>, strs: seq<byte>, changed: seq<ElfSym>)
    requires Table(syms, t, strs) && |t| <= |changed| && changed[..|t|] == syms[..|t|]
    ensures Table(changed, t, strs)
  {
    assert forall i :: 0 <= i < |t| ==> changed[i] == changed[..|t|][i] == syms[i];
  }

  /** The records k and above still describe the symbols of the old table, and their names
      stand above everything that has been written. */
  ghost predicate Unread(syms: seq<ElfSym>, strs: seq<byte>, strEnd: nat, whole: seq<Sym>, k: nat) {
    |whole| <= |syms| && Laid(syms, whole, k, strEnd) && forall j :: k <= j < |whole| ==>
      Denotes(syms[j], whole[j], strs)
  }

  /** The next name fits between the end of the string table and the end of its buffer. */
  lemma UnreadRoom(syms: seq<ElfSym>, strs: seq<byte>, strEnd: nat, whole: seq<Sym>, k: nat)
    requires Unread(syms, strs, strEnd, whole, k) && k < |whole| && strEnd <= |strs|
    ensures Denotes(syms[k], whole[k], strs)
    ensures strEnd + (if whole[k].name == [] then 0 else |whole[k].name| + 1) <= |strs|
  {
  }

  lemma UnreadStart(syms: seq<ElfSym>, strs: seq<byte>, strEnd: nat, t: seq<Sym>, first: nat, firstStr: nat)
    requires strEnd <= |strs| && Table(syms, t, strs[..strEnd]) && Laid(syms, t, first, firstStr)
    ensures Unread(syms, strs, firstStr, t, first)
  {
    TableExtends(syms, t, strs[..strEnd], strs);
  }

  /** Writing symbol k at or below its own place leaves all later ones readable. */
  lemma UnreadStep(syms: seq<ElfSym>, strs: seq<byte>, strEnd: nat, whole: seq<Sym>, k: nat,
                   syms': seq<ElfSym>, strs': seq<byte>, strEnd': nat)
    requires Unread(syms, strs, strEnd, whole, k) && k < |whole|
    requires strEnd' <= strEnd + (if whole[k].name == [] then 0 else |whole[k].name| + 1)
    requires |syms'| == |syms| && forall j :: k < j < |syms| ==> syms'[j] == syms[j]
    requires |strs'| == |strs| > 0 && strs'[0] == 0 && forall j :: strEnd' <= j < |strs| ==> strs'[j] == strs[j]
    ensures Unread(syms', strs', strEnd', whole, k + 1)
  {
    forall j | k + 1 <= j < |whole| ensures NameAt(strs', syms[j].stName, whole[j].name) {
      assert Denotes(syms[j], whole[j], strs);
      var off, n := syms[j].stName, |whole[j].name|;
      if n > 0 {
        assert strEnd' <= off;
        assert strs'[off..off + n] == strs[off..off + n];
      }
    }
  }

  class SymTab {
    var syms: seq<ElfSym>   // the section data; records at count and above are left over
    var count: nat          // data_offset, in records
    var strs: seq<byte>     // the data of the linked string table
    var strEnd: nat         // its data_offset
    var words: seq<nat>     // the data of the hash section
    var hashedSyms: nat     // nb_hashed_syms
    var hashing: bool       // s->hash is set
    var firstSym: nat       // sh_offset saved by BeginFile, in records
    var firstStr: nat       // sh_offset of the string table saved by BeginFile
    var clashes: nat        // errors reported
    const context: Context
    ghost var table: seq<Sym>

    ghost predicate Shape()
      reads this
    {
      1 <= count == |table| <= |syms| && 1 <= strEnd <= |strs| && strs[0] == 0 &&
      Table(syms, table, strs[..strEnd])
    }

    ghost predicate Valid()
      reads this
    {
      Shape() && HashShape() && (!hashing ==> FileShape())
    }

    ghost predicate HashShape()
      reads this
    {
      if hashing then
        HashOk(words, table) && hashedSyms == CountHashed(table) <= 2 * words[0]
      else
        1 <= firstSym <= |table| &&
        HashOk(words, table[..firstSym]) && hashedSyms == CountHashed(table[..firstSym]) <= 2 * words[0]
    }

    ghost predicate FileShape()
      reads this
    {
      1 <= firstStr <= strEnd <= |strs| && 1 <= firstSym <= |table| &&
      Laid(syms, table, firstSym, firstStr) && Table(syms, table[..firstSym], strs[..firstStr])
    }

    /** new_symtab and init_symtab: the null symbol, the empty string, one bucket. */
    constructor (context: Context)
      ensures Valid() && hashing && clashes == 0
      ensures table == [Sym([], 0, 0, 0, 0, 0)] && this.context == context
    {
      this.context := context;
      strs, strEnd := [0], 1;
      syms, count := [ElfSym(0, 0, 0, 0, 0, 0)], 1;
      words, hashedSyms, hashing := [1, 1, 0, 0], 0, true;
      firstSym, firstStr, clashes := 0, 0, 0;
      table := [Sym([], 0, 0, 0, 0, 0)];
      new;
      assert strs[..strEnd] == [0];
    }

    /** put_elf_str: the bytes above strEnd are overwritten, and the buffer grows if need be. */
    method PutElfStr(name: Name) returns (offset: nat)
      requires strEnd <= |strs|
      modifies `strs, `strEnd
      ensures offset == old(strEnd) && strEnd == old(strEnd) + |name| + 1 <= |strs|
      ensures NameAt(strs[..strEnd], offset, name) && strs[..old(strEnd)] == old(strs[..strEnd])
      ensures |strs| == Max(|old(strs)|, strEnd) && forall i :: strEnd <= i < |strs| ==> strs[i] == old(strs)[i]
    {
      offset := strEnd;
      var end := strEnd + |name| + 1;
      strs := strs[..strEnd] + name + [0] + (if end <= |strs| then strs[end..] else []);
      strEnd := end;
    }

    /** rebuild_hash: the table is scanned once, each symbol pushed on its bucket. */
    method RebuildHash(nbuckets: nat)
      requires Shape() && (nbuckets == 0 ==> |words| > 0 && words[0] > 0)
      modifies `words
      ensures HashOk(words, table) && words[0] == if nbuckets != 0 then nbuckets else old(words[0])
    {
      var nb := if nbuckets != 0 then nbuckets else words[0];
      var data := ClearBuckets(nb, count);
      ghost var keys := Keys(table, nb);
      for i := 1 to count
        invariant Linked(data[..], keys, nb, i) && data[0] == nb && data[1] == count
      {
        LinkSymbol(data, nb, i);
      }
      words := data[..];
    }

    /** The start of rebuild_hash: the two header words, empty buckets and the null symbol. */
    static method ClearBuckets(nb: nat, count: nat) returns (data: array<nat>)
      requires nb > 0 && count > 0
      ensures fresh(data) && data.Length == 2 + nb + count && data[0] == nb && data[1] == count
      ensures forall x :: 2 <= x < 2 + nb + 1 ==> data[x] == 0
    {
      data := new nat[2 + nb + count];
      data[0], data[1] := nb, count;
      for x := 2 to 2 + nb + 1
        invariant data[0] == nb && data[1] == count
        invariant forall y :: 2 <= y < x ==> data[y] == 0
      {
        data[x] := 0;
      }
    }

    /** The body of the loop of rebuild_hash. */
    method LinkSymbol(data: array<nat>, nb: nat, i: nat)
      requires Shape() && nb > 0 && 1 <= i < count && Linked(data[..], Keys(table, nb), nb, i)
      modifies data
      ensures Linked(data[..], Keys(table, nb), nb, i + 1)
      ensures data[0] == old(data[0]) && data[1] == old(data[1])
    {
      PushLinks(data[..], Keys(table, nb), nb, i);
      LinkedRoom(data[..], Keys(table, nb), nb, i);
      assert Denotes(syms[i], table[i], strs[..strEnd]);
      hide Linked, Table;
      if Bind(syms[i].info) != STB_LOCAL {
        var name := NameOf(i);
        var v := ComputeElfHash(name);
        var h := v % nb;
        data[2 + nb + i] := data[2 + h];
        data[2 + h] := i;
        assert h == Keys(table, nb)[i];
      } else {
        data[2 + nb + i] := 0;
      }
      assert data[..] == Push(old(data[..]), nb, i, Keys(table, nb)[i]);
    }

    /** The name of symbol i as the C code reads it. */
    method NameOf(i: nat) returns (name: Name)
      requires Shape() && i < count
      ensures name == table[i].name && syms[i].info == table[i].info
    {
      name := CStr(strs[..strEnd], syms[i].stName);
      assert Denotes(syms[i], table[i], strs[..strEnd]);
      CStrReads(strs[..strEnd], syms[i].stName, table[i].name);
    }

    /** The part of put_elf_sym that enters the new last symbol into the hash section. */
    method EnterHash()
      requires Shape() && count >= 2 && HashOk(words, table[..count - 1])
      requires hashedSyms == CountHashed(table[..count - 1]) <= 2 * words[0]
      modifies `words, `hashedSyms
      ensures HashOk(words, table) && hashedSyms == CountHashed(table) <= 2 * words[0]
    {
      hide ElfHash, Linked, Table, NameAt;
      var symIndex := count - 1;
      var nb := words[0];
      ghost var t, s := table[..symIndex], table[symIndex];
      assert table == t + [s];
      CountHashedAppend(t, s);
      HashAppend(words, t, s);
      words := words + [0];
      var name := NameOf(symIndex);
      if Bind(syms[symIndex].info) != STB_LOCAL {
        var v := ComputeElfHash(name);
        var h := v % nb;
        words := words[|words| - 1 := words[2 + h]];
        words := words[2 + h := symIndex];
        words := words[1 := words[1] + 1];
        assert words == Push(old(words) + [0], nb, symIndex, KeyOf(s, nb))[1 := count];
        hashedSyms := hashedSyms + 1;
        if hashedSyms > 2 * nb {
          RebuildHash(2 * nb);
        }
      } else {
        words := words[|words| - 1 := 0];
        words := words[1 := words[1] + 1];
        assert words == Push(old(words) + [0], nb, symIndex, KeyOf(s, nb))[1 := count];
      }
    }

    /** The part of put_elf_sym that stores the name and the record. */
    method PutRecord(s: Sym)
      requires Shape() && (!hashing ==> FileShape())
      modifies `syms, `count, `strs, `strEnd, `table
      ensures Shape() && table == old(table) + [s] && (!hashing ==> FileShape())
      ensures strEnd == old(strEnd) + (if s.name == [] then 0 else |s.name| + 1)
      ensures |syms| == Max(|old(syms)|, count) && forall i :: count <= i < |syms| ==> syms[i] == old(syms)[i]
      ensures |strs| == Max(|old(strs)|, strEnd) && forall i :: strEnd <= i < |strs| ==> strs[i] == old(strs)[i]
    {
      hide Laid, Table, Denotes, Store;
      ghost var oldStrs, base := strs[..strEnd], if hashing then [] else strs[..firstStr];
      var nameOffset := 0;
      if s.name != [] {
        nameOffset := PutElfStr(s.name);
      }
      ghost var t, newStrs := table, strs[..strEnd];
      assert oldStrs <= newStrs && NameAt(newStrs, nameOffset, s.name);
      var e := ElfSym(nameOffset, s.value, s.size, s.info, s.other, s.shndx);
      TableExtends(syms, t, oldStrs, newStrs);
      DenotesByName(e, s, newStrs);
      TableAppend(syms, t, newStrs, e, s);
      if !hashing {
        LaidAppend(syms, t, firstSym, firstStr, oldStrs, e, s);
        assert strs[..firstStr] == oldStrs[..firstStr] == base;
        TableShrink(syms, t, Store(syms, count, e), firstSym, strs[..firstStr]);
      }
      syms := Store(syms, count, e);
      count := count + 1;
      table := t + [s];
      assert !hashing ==> table[..firstSym] == t[..firstSym];
    }

    /** put_elf_sym: the symbol takes the next record, overwriting whatever stood there. */
    method PutElfSym(s: Sym) returns (symIndex: nat)
      requires Valid()
      modifies `syms, `count, `strs, `strEnd, `words, `hashedSyms, `table
      ensures Valid() && table == old(table) + [s] && symIndex == old(count)
      ensures strEnd == old(strEnd) + (if s.name == [] then 0 else |s.name| + 1)
      ensures |syms| == Max(|old(syms)|, count) && forall i :: count <= i < |syms| ==> syms[i] == old(syms)[i]
      ensures |strs| == Max(|old(strs)|, strEnd) && forall i :: strEnd <= i < |strs| ==> strs[i] == old(strs)[i]
    {
      hide HashOk, CountHashed, Laid, Table;
      symIndex := count;
      PutRecord(s);
      assert table[..count - 1] == old(table);
      if hashing {
        EnterHash();
      } else {
        assert table[..firstSym] == old(table[..firstSym]);
      }
    }

    /** find_elf_sym: the bucket is followed until a name matches. */
    method FindElfSym(name: Name) returns (symIndex: nat)
      requires Valid()
      ensures symIndex == if hashing then Find(table, name) else 0
    {
      hide ElfHash, CStr, Table, Laid, CountHashed, Keys;
      if !hashing {
        return 0;
      }
      var nb := words[0];
      var v := ComputeElfHash(name);
      var h := v % nb;
      assert h == Bucket(name, nb);
      symIndex := words[2 + h];
      ghost var keys := Keys(table, nb);
      ghost var k: nat := count;
      while symIndex != 0
        invariant k <= count && symIndex == Latest(keys, h, k)
        invariant FindBelow(table, name, k) == Find(table, name)
        decreases symIndex
      {
        ChainSkips(table, name, nb, k);
        var name1 := NameOf(symIndex);
        if name == name1 {
          return;
        }
        k := symIndex;
        symIndex := words[2 + nb + symIndex];
      }
      ChainSkips(table, name, nb, k);
    }

    /** set_elf_sym. */
    method SetElfSym(s: Sym) returns (symIndex: nat)
      requires Valid()
      modifies `syms, `count, `strs, `strEnd, `words, `hashedSyms, `table, `clashes
      ensures Valid()
      ensures var r := Insert(old(table), s, context);
        if hashing then
          table == r.table && symIndex == r.index && clashes == old(clashes) + (if r.clash then 1 else 0)
        else
          table == old(table) + [s] && symIndex == old(count) && clashes == old(clashes)
      ensures |table| <= old(|table|) + 1
      ensures strEnd == old(strEnd) + (if |table| == old(|table|) || s.name == [] then 0 else |s.name| + 1)
      ensures |syms| == Max(|old(syms)|, count) && forall i :: count <= i < |syms| ==> syms[i] == old(syms)[i]
      ensures |strs| == Max(|old(strs)|, strEnd) && forall i :: strEnd <= i < |strs| ==> strs[i] == old(strs)[i]
    {
      hide HashOk, Table, Laid, Merge, Clashes, CountHashed;
      var symBind := Bind(s.info);
      if symBind != STB_LOCAL {
        symIndex := FindElfSym(s.name);
        if symIndex != 0 {
          PatchSym(symIndex, s);
          return;
        }
      }
      symIndex := PutElfSym(s);
    }

    /** The part of set_elf_sym that deals with an entry found under the same name. */
    method PatchSym(symIndex: nat, s: Sym)
      requires Valid() && hashing && 1 <= symIndex < count
      requires s.Hashed() && table[symIndex].Hashed() && table[symIndex].name == s.name
      modifies `syms, `table, `clashes
      ensures Valid() && table == old(table)[symIndex := Merge(old(table[symIndex]), s, context)]
      ensures clashes == old(clashes) + (if Clashes(old(table[symIndex]), s, context) then 1 else 0)
      ensures |syms| == |old(syms)| && forall i :: count <= i < |syms| ==> syms[i] == old(syms)[i]
    {
      hide HashOk, CountHashed, NameAt, Laid, Judge, Merge, Clashes;
      var esym := syms[symIndex];
      assert Denotes(esym, table[symIndex], strs[..strEnd]);
      var patched, clash := MergeRecord(esym, s, context);
      if clash {
        clashes := clashes + 1;
      }
      TablePatch(syms, table, strs[..strEnd], symIndex, patched, Merge(table[symIndex], s, context));
      MergeKeeps(table[symIndex], s, context);
      syms := syms[symIndex := patched];
      table := table[symIndex := Merge(table[symIndex], s, context)];
      HashOkSameKeys(words, old(table), table);
      CountSameKeys(old(table), table);
    }

    /** All symbols with their names, as the loops over a symbol table read them. */
    method Symbols() returns (t: seq<Sym>)
      requires Shape()
      ensures t == table
    {
      t := [];
      for i := 0 to count
        invariant t == table[..i]
      {
        var name := NameOf(i);
        assert Denotes(syms[i], table[i], strs[..strEnd]);
        t := t + [Sym(name, syms[i].value, syms[i].size, syms[i].info, syms[i].other, syms[i].shndx)];
      }
      assert table[..count] == table;
    }

    /** The end of update_gnu_hash: the records go to their new places and rebuild_hash makes the
        index of the reordered table, with as many buckets as before. */
    method Reorder(tr: seq<nat>, ghost moved: seq<Sym>)
      requires Valid() && hashing && Moved(table, moved, tr)
      modifies `syms, `table, `words
      ensures Valid() && table == moved && words[0] == old(words[0])
    {
      hide Table, CountHashed, Linked, Keys;
      var newSyms := syms;
      for i := 0 to count
        invariant |newSyms| == |syms| && forall j :: 0 <= j < i ==> newSyms[tr[j]] == syms[j]
      {
        newSyms := newSyms[tr[i] := syms[i]];
      }
      TableMoved(syms, table, strs[..strEnd], newSyms, moved, tr);
      CountMoved(table, moved, tr);
      syms, table := newSyms, moved;
      RebuildHash(words[0]);
    }

    /** tccelf_begin_file: the sizes are remembered and hashing is switched off. */
    method BeginFile()
      requires Valid() && hashing
      modifies `firstSym, `firstStr, `hashing
      ensures Valid() && !hashing && firstSym == |table|
    {
      firstSym, firstStr := count, strEnd;
      hashing := false;
      assert table[..firstSym] == table;
    }

    /** One turn of the loop of tccelf_end_file: record k of the old table is taken over. */
    method MergeNext(ghost whole: seq<Sym>, k: nat, obj: bool) returns (symIndex: nat)
      requires Valid() && hashing && count <= k < |whole| && Unread(syms, strs, strEnd, whole, k)
      modifies `syms, `count, `strs, `strEnd, `words, `hashedSyms, `table, `clashes
      ensures Valid() && count <= k + 1 && Unread(syms, strs, strEnd, whole, k + 1)
      ensures |syms| == |old(syms)| && |strs| == |old(strs)|
      ensures var r := Insert(old(table), Globalized(whole[k], obj), context);
        table == r.table && symIndex == r.index && clashes == old(clashes) + (if r.clash then 1 else 0)
    {
      hide HashOk, Table, Laid, Insert, CountHashed;
      var sym := syms[k];
      if sym.shndx == SHN_UNDEF {
        var symBind, symType := Bind(sym.info), Type(sym.info);
        if symBind == STB_LOCAL {
          symBind := STB_GLOBAL;
        }
        if symBind == STB_GLOBAL && obj {
          symType := STT_NOTYPE;
        }
        sym := sym.(info := Info(symBind, symType));
        TableFrame(syms, table, strs[..strEnd], syms[k := sym]);
        syms := syms[k := sym];
      }
      UnreadRoom(old(syms), strs, strEnd, whole, k);
      CStrReads(strs, sym.stName, whole[k].name);
      var name := CStr(strs, sym.stName);
      symIndex := SetElfSym(Sym(name, sym.value, sym.size, sym.info, sym.other, sym.shndx));
      UnreadStep(old(syms), old(strs), old(strEnd), whole, k, syms, strs, strEnd);
    }

    /** The loop of tccelf_end_file: both tables are cut back to where the file began, and the
        symbols that still stand above the cut are inserted again, over their own storage. */
    method ReinsertFile(trans: array<nat>, obj: bool)
      requires Valid() && !hashing && trans.Length == count - firstSym
      modifies this, trans
      ensures Valid() && hashing && firstSym == old(firstSym)
      ensures |syms| == |old(syms)| && |strs| == |old(strs)|
      ensures var m := MergeFile(old(table[..firstSym]), old(table[firstSym..]), obj, context);
        table == m.table && trans[..] == m.tr && clashes == old(clashes) + m.clashes
    {
      hide HashOk, Table, Laid, Insert, Unread, CountHashed, Globalized, MergeFile;
      ghost var whole, before, file := table, table[..firstSym], table[firstSym..];
      var first := firstSym;
      UnreadStart(syms, strs, strEnd, table, firstSym, firstStr);
      count, strEnd, table := firstSym, firstStr, table[..firstSym];
      hashing := true;
      MergeFileNone(before, file, obj, context);
      for i := 0 to trans.Length
        invariant Valid() && hashing && count <= first + i && firstSym == first
        invariant Unread(syms, strs, strEnd, whole, first + i)
        invariant |syms| == |old(syms)| && |strs| == |old(strs)|
        invariant var m := MergeFile(before, file[..i], obj, context);
          table == m.table && trans[..i] == m.tr && clashes == old(clashes) + m.clashes
      {
        trans[i] := MergeNext(whole, first + i, obj);
        MergeFileNext(before, file, i, obj, context);
      }
      assert file[..trans.Length] == file && trans[..trans.Length] == trans[..];
    }

    /** tccelf_end_file. */
    method EndFile(obj: bool, relocs: array<seq<Rel>>)
      requires Valid() && !hashing
      requires AllInRange(relocs[..], count)
      modifies this, relocs
      ensures Valid() && hashing
      ensures |syms| == |old(syms)| && |strs| == |old(strs)|
      ensures var m := MergeFile(old(table[..firstSym]), old(table[firstSym..]), obj, context);
        table == m.table && clashes == old(clashes) + m.clashes &&
        AllRedirected(relocs[..], old(relocs[..]), m.tr, old(firstSym))
    {
      hide AllInRange, AllRedirected, HashOk, Table, Laid, CountHashed, MergeFile, Linked;
      var trans := new nat[count - firstSym];
      ReinsertFile(trans, obj);
      UpdateRelocs(relocs, trans[..], firstSym);
    }
  }

  function Resolved(e: ElfSym, name: Name): Sym {
    Sym(name, e.value, e.size, e.info, e.other, e.shndx)
  }

  lemma MergeKeeps(e: Sym, s: Sym, c: Context)
    requires e.Hashed() && s.Hashed()
    ensures Merge(e, s, c).Hashed()
  {
  }

  lemma FieldsRebuilt(info: byte, other: byte, vis: nat)
    requires vis < 4
    ensures Info(Bind(info), Type(info)) == info
    ensures 0 <= other - Visibility(other) + vis < 256
    ensures AsmSet(other - Visibility(other) + vis) == AsmSet(other)
  {
    assert (other - Visibility(other) + vis) / 4 == other / 4;
  }

  lemma MergeFileNone(t: seq<Sym>, file: seq<Sym>, obj: bool, c: Context)
    ensures MergeFile(t, file[..0], obj, c) == Merged(t, [], 0)
  {
  }

  lemma MergeFileNext(t: seq<Sym>, file: seq<Sym>, i: nat, obj: bool, c: Context)
    requires i < |file|
    ensures var m := MergeFile(t, file[..i], obj, c);
      var r := Insert(m.table, Globalized(file[i], obj), c);
      MergeFile(t, file[..i + 1], obj, c) == Merged(r.table, m.tr + [r.index], m.clashes + (if r.clash then 1 else 0))
  {
    hide Insert, Globalized;
    assert file[..i + 1][..i] == file[..i];
  }

  method MostConstraining(esymVis: nat, symVis: nat) returns (newVis: nat)
    requires esymVis < 4 && symVis < 4
    ensures newVis == MergedVisibility(esymVis, symVis)
  {
    if esymVis == STV_DEFAULT {
      newVis := symVis;
    } else if symVis == STV_DEFAULT {
      newVis := esymVis;
    } else {
      newVis := if esymVis < symVis then esymVis else symVis;
    }
  }

  /** The branches of set_elf_sym for an existing record, which keeps its name. */
  method MergeRecord(e: ElfSym, s: Sym, context: Context) returns (esym: ElfSym, clash: bool)
    ensures esym.stName == e.stName
    ensures Resolved(esym, s.name) == Merge(Resolved(e, s.name), s, context)
    ensures clash == Clashes(Resolved(e, s.name), s, context)
  {
    hide AsmSet, Bind, Type, Info, Visibility, MergedVisibility;
    esym, clash := e, false;
    FieldsRebuilt(s.info, e.other, MergedVisibility(Visibility(e.other), Visibility(s.other)));
    if esym.value == s.value && esym.size == s.size && esym.info == s.info && esym.other == s.other
       && esym.shndx == s.shndx
    {
      return;
    }
    var patch := true;
    if esym.shndx != SHN_UNDEF {
      var symBind, esymBind := Bind(s.info), Bind(esym.info);
      var symVis, esymVis := Visibility(s.other), Visibility(esym.other);
      var newVis := MostConstraining(esymVis, symVis);
      esym := esym.(other := esym.other - esymVis + newVis);
      patch := false;
      if s.shndx == SHN_UNDEF {
      } else if symBind == STB_GLOBAL && esymBind == STB_WEAK {
        patch := true;
      } else if symBind == STB_WEAK && esymBind == STB_GLOBAL {
      } else if symBind == STB_WEAK && esymBind == STB_WEAK {
      } else if symVis == STV_HIDDEN || symVis == STV_INTERNAL {
      } else if (esym.shndx == SHN_COMMON || esym.shndx == context.bss)
                && s.shndx < SHN_LORESERVE && s.shndx != context.bss {
        patch := true;
      } else if s.shndx == SHN_COMMON || s.shndx == context.bss {
      } else if context.dll {
      } else if AsmSet(esym.other) {
        patch := true;
      } else {
        clash := true;
      }
    } else {
      esym := esym.(other := s.other);
    }
    if patch {
      esym := esym.(info := Info(Bind(s.info), Type(s.info)), shndx := s.shndx, value := s.value, size := s.size);
    }
  }
}
