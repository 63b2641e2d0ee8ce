/** Symbol records, the bit fields of st_info and st_other, and the rule set_elf_sym
    applies when a name is already in the table (tccelf.c). */
module Symbols {
  import opened Bytes

  const STB_LOCAL: nat := 0
  const STB_GLOBAL: nat := 1
  const STB_WEAK: nat := 2
  const STT_NOTYPE: nat := 0
  const STT_OBJECT: nat := 1
  const STT_FUNC: nat := 2
  const STV_DEFAULT: nat := 0
  const STV_INTERNAL: nat := 1
  const STV_HIDDEN: nat := 2
  const SHN_UNDEF: nat := 0
  const SHN_LORESERVE: nat := 0xff00
  const SHN_COMMON: nat := 0xfff2

  /** The bytes of a C string, without the terminator. */
  type Name = s: seq<byte> | 0 !in s

  function Power(b: nat, n: nat): nat {
    if n == 0 then 1 else b * Power(b, n - 1)
  }

  /** The number whose digits to the base b are the bytes of the name. */
  function Digits(name: Name, b: nat): nat
    decreases |name|
  {
    if name == [] then 0 else name[0] * Power(b, |name| - 1) + Digits(name[1..], b)
  }

  lemma {:induction false} DigitsNext(name: Name, b: nat)
    requires name != []
    ensures Digits(name, b) == b * Digits(name[..|name| - 1], b) + name[|name| - 1]
    decreases |name|
  {
    var n := |name| - 1;
    if n > 0 {
      DigitsNext(name[1..], b);
      assert name[1..][..n - 1] == name[..n][1..];
      Distribute(b, name[0], Power(b, n - 1), Digits(name[..n][1..], b));
    }
  }

  lemma Distribute(b: nat, c: nat, p: nat, d: nat)
    ensures c * (b * p) + b * d == b * (c * p + d)
  {
    assert c * (b * p) == b * (c * p);
  }

  function Bind(info: byte): (b: nat)
    ensures b < 16
  {
    info / 16
  }

  function Type(info: byte): (t: nat)
    ensures t < 16
  {
    info % 16
  }

  function Info(bind: nat, typ: nat): (info: byte)
    requires bind < 16
    ensures Bind(info) == bind && Type(info) == typ % 16
  {
    bind * 16 + typ % 16
  }

  function Visibility(other: byte): (v: nat)
    ensures v < 4
  {
    other % 4
  }

  /** The ST_ASM_SET flag, bit 2 of st_other. */
  predicate AsmSet(other: byte) {
    other / 4 % 2 == 1
  }

  /** A symbol with its name resolved through the string table. */
  datatype Sym = Sym(name: Name, value: nat, size: nat, info: byte, other: byte, shndx: nat) {
    /** Only non-local symbols enter the hash table. */
    predicate Hashed() {
      Bind(info) != STB_LOCAL
    }

    predicate Defined() {
      shndx != SHN_UNDEF
    }

    predicate SameFields(s: Sym) {
      value == s.value && size == s.size && info == s.info && other == s.other && shndx == s.shndx
    }
  }

  /** What the linker has to know to merge two symbols: the number of the bss section, and
      whether the table holds the symbols of the loaded DLLs. */
  datatype Context = Context(bss: nat, dll: bool)

  /** The most constraining of two visibilities. */
  function MergedVisibility(e: nat, n: nat): (v: nat)
    requires e < 4 && n < 4
    ensures v < 4
  {
    if e == STV_DEFAULT then n else if n == STV_DEFAULT then e else if e < n then e else n
  }

  datatype Verdict = Ignore | Patch | Clash

  /** The decision set_elf_sym takes for a new symbol n when e, of the same name, is defined. */
  function Judge(e: Sym, n: Sym, c: Context): Verdict {
    if n.shndx == SHN_UNDEF then Ignore
    else if Bind(n.info) == STB_GLOBAL && Bind(e.info) == STB_WEAK then Patch
    else if Bind(n.info) == STB_WEAK && Bind(e.info) == STB_GLOBAL then Ignore
    else if Bind(n.info) == STB_WEAK && Bind(e.info) == STB_WEAK then Ignore
    else if Visibility(n.other) == STV_HIDDEN || Visibility(n.other) == STV_INTERNAL then Ignore
    else if (e.shndx == SHN_COMMON || e.shndx == c.bss) && n.shndx < SHN_LORESERVE && n.shndx != c.bss then Patch
    else if n.shndx == SHN_COMMON || n.shndx == c.bss then Ignore
    else if c.dll then Ignore
    else if AsmSet(e.other) then Patch
    else Clash
  }

  /** The entry of the table after a new symbol n met e of the same name. */
  function Merge(e: Sym, n: Sym, c: Context): (r: Sym)
    ensures r.name == e.name
  {
    if e.SameFields(n) then
      e
    else if !e.Defined() then
      e.(other := n.other, info := n.info, shndx := n.shndx, value := n.value, size := n.size)
    else
      var other := e.other - Visibility(e.other) + MergedVisibility(Visibility(e.other), Visibility(n.other));
      if Judge(e, n, c) == Patch then
        e.(other := other, info := n.info, shndx := n.shndx, value := n.value, size := n.size)
      else
        e.(other := other)
  }

  /** "defined twice" is reported. */
  predicate Clashes(e: Sym, n: Sym, c: Context) {
    !e.SameFields(n) && e.Defined() && Judge(e, n, c) == Clash
  }

  /** The last hashed symbol called name among t[1..k], or 0. */
  function FindBelow(t: seq<Sym>, name: Name, k: nat): (j: nat)
    requires k <= |t|
    ensures j == 0 || (1 <= j < k && t[j].Hashed() && t[j].name == name)
    ensures forall i :: (if j == 0 then 1 else j + 1) <= i < k ==> !(t[i].Hashed() && t[i].name == name)
  {
    if k <= 1 then 0
    else if t[k - 1].Hashed() && t[k - 1].name == name then k - 1
    else FindBelow(t, name, k - 1)
  }

  /** The plain lookup that the hash table has to agree with. */
  function Find(t: seq<Sym>, name: Name): (j: nat)
    ensures j == 0 || (1 <= j < |t| && t[j].Hashed() && t[j].name == name)
    ensures forall i :: (if j == 0 then 1 else j + 1) <= i < |t| ==> !(t[i].Hashed() && t[i].name == name)
  {
    FindBelow(t, name, |t|)
  }

  datatype Inserted = Inserted(table: seq<Sym>, index: nat, clash: bool)

  /** set_elf_sym on the plain table. */
  function Insert(t: seq<Sym>, s: Sym, c: Context): (r: Inserted)
    ensures |t| <= |r.table| && r.index < |r.table|
    ensures r.table[r.index].name == s.name
  {
    var k := if s.Hashed() then Find(t, s.name) else 0;
    if k == 0 then
      Inserted(t + [s], |t|, false)
    else
      Inserted(t[k := Merge(t[k], s, c)], k, Clashes(t[k], s, c))
  }

  /** An undefined symbol of a finished file becomes global; in an object file an undefined
      global also loses its type. */
  function Globalized(s: Sym, obj: bool): (r: Sym)
    ensures r == s.(info := r.info)
    ensures !r.Defined() ==> r.Hashed()
  {
    if s.Defined() then
      s
    else
      var bind := if Bind(s.info) == STB_LOCAL then STB_GLOBAL else Bind(s.info);
      s.(info := Info(bind, if bind == STB_GLOBAL && obj then STT_NOTYPE else Type(s.info)))
  }

  /** The table, the new index of each symbol of the file, and the number of clashes. */
  datatype Merged = Merged(table: seq<Sym>, tr: seq<nat>, clashes: nat)

  /** The symbols of a file, taken from a snapshot, inserted one after the other. */
  ghost function MergeFile(t: seq<Sym>, file: seq<Sym>, obj: bool, c: Context): (m: Merged)
    ensures |t| <= |m.table| && |m.tr| == |file|
    ensures forall i :: 0 <= i < |file| ==> m.tr[i] < |m.table|
    decreases |file|
  {
    if file == [] then
      Merged(t, [], 0)
    else
      var m := MergeFile(t, file[..|file| - 1], obj, c);
      var r := Insert(m.table, Globalized(file[|file| - 1], obj), c);
      Merged(r.table, m.tr + [r.index], m.clashes + (if r.clash then 1 else 0))
  }
}
