/** Relocation of a section and the dynamic relocations it leaves (tccelf.c, i386-link.c): two
    passes that must agree on a number, an in-place compaction, and the patched fields. */
module DynReloc {
  import opened Bytes
  import opened Symbols
  import opened Relocations

  const TLS_TYPES: set<nat> := {17, 18, 19, 32}   // TLS_LE, TLS_GD, TLS_LDM, TLS_LDO_32

  /** dyn_index and got_offset of a symbol. */
  datatype Attr = Attr(dynIndex: nat, gotOffset: nat)

  /** What relocation reads: symbols, their attributes, the kind of output (dyn: the output is
      relocated when loaded; dll: it is a shared library; binary: a flat binary), addresses; dwarf:
      the section is one of the DWARF sections, whose numbers go from dwarfLow to below dwarfHigh. */
  datatype Linking = Linking(symbols: seq<Sym>, attrs: seq<Attr>, dyn: bool, dll: bool, binary: bool,
                             secAddr: nat, gotAddr: nat,
                             dwarf: bool, dwarfLow: nat, dwarfHigh: nat, secAddrs: seq<nat>) {
    /** get_sym_attr without allocation: an index beyond the table reads its first entry. */
    function AttrOf(index: nat): Attr
      requires |attrs| > 0
    {
      if index < |attrs| then attrs[index] else attrs[0]
    }

    /** The relocation names a symbol and is of a kind that is handled here. */
    predicate Handles(r: Rel) {
      |attrs| > 0 && r.info < WORD && RSym(r.info) < |symbols| && RType(r.info) !in TLS_TYPES && (dll ==> dyn) &&
      (dwarf ==> 1 <= dwarfLow && dwarfHigh <= |secAddrs|)
    }

    /** A relocation between DWARF sections becomes an offset in the section it refers to. */
    predicate Between(r: Rel)
      requires Handles(r)
    {
      dwarf && RType(r.info) == R_386_32 && dwarfLow <= SymOf(r).shndx < dwarfHigh
    }

    function SymOf(r: Rel): Sym
      requires Handles(r)
    {
      symbols[RSym(r.info)]
    }

    function DynIndex(r: Rel): nat
      requires Handles(r)
    {
      AttrOf(RSym(r.info)).dynIndex
    }
  }

  // ---------------------------------------------------------------- counting

  /** prepare_dynamic_rel on one entry: the entry as it is left. */
  function Prepared(r: Rel, c: Linking): Rel
    requires c.Handles(r)
  {
    var sym, t := c.SymOf(r), RType(r.info);
    if t == R_386_32 && c.DynIndex(r) == 0 && !sym.Defined() then
      r.(info := RInfo(RSym(r.info), R_386_RELATIVE))
    else if t == R_386_PC32 && sym.Defined() && Visibility(sym.other) == STV_HIDDEN then
      r.(info := RInfo(RSym(r.info), R_386_PLT32))
    else
      r
  }

  /** prepare_dynamic_rel counts the entry. */
  function Counted(r: Rel, c: Linking): nat
    requires c.Handles(r)
  {
    var sym, t := c.SymOf(r), RType(r.info);
    if t == R_386_32 then (if c.DynIndex(r) == 0 && !sym.Defined() then 0 else 1)
    else if t == R_386_PC32 then
      (if sym.Defined() && Visibility(sym.other) == STV_HIDDEN then 0
       else if c.dll && c.DynIndex(r) != 0 then 1 else 0)
    else 0
  }

  ghost predicate AllHandled(rels: seq<Rel>, c: Linking) {
    forall i :: 0 <= i < |rels| ==> c.Handles(rels[i])
  }

  ghost function CountTo(rels: seq<Rel>, c: Linking, k: nat): nat
    requires AllHandled(rels, c) && k <= |rels|
  {
    if k == 0 then 0 else CountTo(rels, c, k - 1) + Counted(rels[k - 1], c)
  }

  /** prepare_dynamic_rel. */
  method PrepareDynamicRel(rels: array<Rel>, c: Linking) returns (count: nat)
    requires AllHandled(rels[..], c)
    modifies rels
    ensures count == CountTo(old(rels[..]), c, rels.Length)
    ensures forall i :: 0 <= i < rels.Length ==> rels[i] == Prepared(old(rels[..])[i], c)
  {
    hide Prepared;
    ghost var was := rels[..];
    count := 0;
    for i := 0 to rels.Length
      invariant count == CountTo(was, c, i)
      invariant forall j :: 0 <= j < rels.Length ==> rels[j] == if j < i then Prepared(was[j], c) else was[j]
    {
      assert c.Handles(was[i]);
      var counts;
      rels[i], counts := PrepareOne(rels[i], c);
      count := count + counts;
    }
  }

  /** The switch of prepare_dynamic_rel. */
  method PrepareOne(rel: Rel, c: Linking) returns (r: Rel, count: nat)
    requires c.Handles(rel)
    ensures r == Prepared(rel, c) && count == Counted(rel, c)
  {
    r, count := rel, 0;
    var symIndex, typ := RSym(rel.info), RType(rel.info);
    if typ == R_386_32 {
      if c.AttrOf(symIndex).dynIndex == 0 && c.symbols[symIndex].shndx == SHN_UNDEF {
        r := rel.(info := RInfo(symIndex, R_386_RELATIVE));
        return;
      }
      count := 1;
    } else if typ == R_386_PC32 {
      var sym := c.symbols[symIndex];
      if sym.shndx != SHN_UNDEF && Visibility(sym.other) == STV_HIDDEN {
        r := rel.(info := RInfo(symIndex, R_386_PLT32));
        return;
      }
      if c.dll && c.AttrOf(symIndex).dynIndex != 0 {
        count := 1;
      }
    }
  }

  // ---------------------------------------------------------------- relocating

  /** What relocate does to the bytes at the relocated place. */
  datatype Patch = Nothing | Add32(x: int) | Set32(x: int) | Add16(x: int) {
    function Width(): nat {
      match this
      case Nothing => 0
      case Add16(_) => 2
      case _ => 4
    }
  }

  /** The field is left to the dynamic loader. */
  predicate Deferred(r: Rel, c: Linking)
    requires c.Handles(r)
  {
    c.DynIndex(r) != 0 && !c.Between(r) &&
    ((RType(r.info) == R_386_32 && c.dyn) || (RType(r.info) == R_386_PC32 && c.dll))
  }

  function PatchOf(r: Rel, c: Linking): Patch
    requires c.Handles(r)
  {
    var t, val, addr := RType(r.info), c.SymOf(r).value, c.secAddr + r.offset;
    if c.Between(r) then Add32(val - c.secAddrs[c.SymOf(r).shndx])
    else if Deferred(r, c) then Nothing
    else if t == R_386_32 then Add32(val)
    else if t == R_386_PC32 || t == R_386_PLT32 then Add32(val - addr)
    else if t == R_386_GLOB_DAT || t == R_386_JMP_SLOT then Set32(val)
    else if t == R_386_GOTPC then Add32(c.gotAddr - addr)
    else if t == R_386_GOTOFF then Add32(val - c.gotAddr)
    else if t == R_386_GOT32 || t == R_386_GOT32X then Add32(c.AttrOf(RSym(r.info)).gotOffset)
    else if t == R_386_16 then Add16(val)
    else if t == R_386_PC16 then Add16(if c.binary then val - addr else val)
    else Nothing
  }

  /** 16-bit fields are accepted only in a flat binary. */
  predicate Rejected(r: Rel, c: Linking)
    requires c.Handles(r)
  {
    !c.binary && (RType(r.info) == R_386_16 || RType(r.info) == R_386_PC16)
  }

  /** The entries written through qrel for one relocation. */
  function Emitted(r: Rel, c: Linking): (out: seq<Rel>)
    requires c.Handles(r)
    ensures |out| <= 1
  {
    if Deferred(r, c) then [Rel(r.offset, RInfo(c.DynIndex(r), RType(r.info)))]
    else if RType(r.info) == R_386_32 && c.dyn && !c.Between(r) then [Rel(r.offset, RInfo(0, R_386_RELATIVE))]
    else []
  }

  ghost function EmittedTo(rels: seq<Rel>, c: Linking, k: nat): (out: seq<Rel>)
    requires AllHandled(rels, c) && k <= |rels|
    ensures |out| <= k
  {
    if k == 0 then [] else EmittedTo(rels, c, k - 1) + Emitted(rels[k - 1], c)
  }

  function Read16(s: seq<byte>, p: nat): nat
    requires p + 2 <= |s|
  {
    s[p] as int + 256 * (s[p + 1] as int)
  }

  function Put16(s: seq<byte>, p: nat, x: int): (r: seq<byte>)
    requires p + 2 <= |s|
    ensures |r| == |s|
  {
    s[p := x % 256][p + 1 := x / 256 % 256]
  }

  function Apply(s: seq<byte>, p: nat, a: Patch): (r: seq<byte>)
    requires p + a.Width() <= |s|
    ensures |r| == |s|
  {
    match a
    case Nothing => s
    case Add32(x) => Put32(s, p, Read32(s, p) + x)
    case Set32(x) => Put32(s, p, x)
    case Add16(x) => Put16(s, p, Read16(s, p) + x)
  }

  /** Every field lies inside the section. */
  ghost predicate FieldsIn(rels: seq<Rel>, c: Linking, size: nat)
    requires AllHandled(rels, c)
  {
    forall i :: 0 <= i < |rels| ==> rels[i].offset + PatchOf(rels[i], c).Width() <= size
  }

  ghost function ApplyTo(s: seq<byte>, rels: seq<Rel>, c: Linking, k: nat): (r: seq<byte>)
    requires AllHandled(rels, c) && FieldsIn(rels, c, |s|) && k <= |rels|
    ensures |r| == |s|
  {
    if k == 0 then s else Apply(ApplyTo(s, rels, c, k - 1), rels[k - 1].offset, PatchOf(rels[k - 1], c))
  }

  method AddLe32(a: array<byte>, p: nat, x: int)
    requires p + 4 <= a.Length
    modifies a
    ensures a[..] == Put32(old(a[..]), p, Read32(old(a[..]), p) + x)
  {
    Write32(a, p, Read32(a[..], p) + x);
  }

  /** relocate: the switch on the relocation type. Entry i is read, entry q is written. */
  method Relocate(data: array<byte>, rels: array<Rel>, q: nat, i: nat, c: Linking) returns (next: nat, error: bool)
    requires q <= i < rels.Length && c.Handles(rels[i]) && !c.Between(rels[i])
    requires rels[i].offset + PatchOf(rels[i], c).Width() <= data.Length
    modifies data, rels
    ensures data[..] == Apply(old(data[..]), old(rels[i]).offset, PatchOf(old(rels[i]), c))
    ensures next == q + |Emitted(old(rels[i]), c)| && error == Rejected(old(rels[i]), c)
    ensures rels[..next] == old(rels[..q]) + Emitted(old(rels[i]), c)
    ensures forall j :: next <= j < rels.Length ==> rels[j] == old(rels[j])
  {
    hide Put32, Read32, RInfo;
    var rel := rels[i];
    var symIndex, typ := RSym(rel.info), RType(rel.info);
    var val, addr := c.symbols[symIndex].value, c.secAddr + rel.offset;
    next, error := q, false;
    if typ == R_386_32 {
      if c.dyn {
        var esymIndex := c.AttrOf(symIndex).dynIndex;
        if esymIndex != 0 {
          rels[q] := Rel(rel.offset, RInfo(esymIndex, R_386_32));
          next := q + 1;
          return;
        }
        rels[q] := Rel(rel.offset, RInfo(0, R_386_RELATIVE));
        next := q + 1;
      }
      AddLe32(data, rel.offset, val);
    } else if typ == R_386_PC32 {
      if c.dll {
        var esymIndex := c.AttrOf(symIndex).dynIndex;
        if esymIndex != 0 {
          rels[q] := Rel(rel.offset, RInfo(esymIndex, R_386_PC32));
          next := q + 1;
          return;
        }
      }
      AddLe32(data, rel.offset, val - addr);
    } else {
      error := RelocateField(data, rel, c);
    }
  }

  /** The cases of relocate that never leave an entry behind. */
  method RelocateField(data: array<byte>, rel: Rel, c: Linking) returns (error: bool)
    requires c.Handles(rel) && RType(rel.info) != R_386_32 && RType(rel.info) != R_386_PC32
    requires rel.offset + PatchOf(rel, c).Width() <= data.Length
    modifies data
    ensures data[..] == Apply(old(data[..]), rel.offset, PatchOf(rel, c)) && error == Rejected(rel, c)
  {
    hide Put32, Read32;
    var symIndex, typ := RSym(rel.info), RType(rel.info);
    var val, addr := c.symbols[symIndex].value, c.secAddr + rel.offset;
    error := false;
    if typ == R_386_PLT32 {
      AddLe32(data, rel.offset, val - addr);
    } else if typ == R_386_GLOB_DAT || typ == R_386_JMP_SLOT {
      Write32(data, rel.offset, val);
    } else if typ == R_386_GOTPC {
      AddLe32(data, rel.offset, c.gotAddr - addr);
    } else if typ == R_386_GOTOFF {
      AddLe32(data, rel.offset, val - c.gotAddr);
    } else if typ == R_386_GOT32 || typ == R_386_GOT32X {
      AddLe32(data, rel.offset, c.AttrOf(symIndex).gotOffset);
    } else if typ == R_386_16 || typ == R_386_PC16 {
      error := !c.binary;
      var x := Read16(data[..], rel.offset) + (if typ == R_386_PC16 && c.binary then val - addr else val);
      data[rel.offset], data[rel.offset + 1] := x % 256, x / 256 % 256;
    }
  }

  ghost function Errors(rels: seq<Rel>, c: Linking, k: nat): nat
    requires AllHandled(rels, c) && k <= |rels|
  {
    if k == 0 then 0 else Errors(rels, c, k - 1) + (if Rejected(rels[k - 1], c) then 1 else 0)
  }

  /** relocate_section. A section without data (bss) is passed over. The entries to keep are packed
      at the front of the table that is being read, and kept is their number; the table gets that
      size if it is allocated (alloc) in an output that is relocated when loaded. */
  method RelocateSection(data: array<byte>, hasData: bool, alloc: bool, rels: array<Rel>, c: Linking)
      returns (kept: nat, size: nat, errors: nat)
    requires AllHandled(rels[..], c) && (hasData ==> FieldsIn(rels[..], c, data.Length))
    modifies data, rels
    ensures size == if alloc && c.dyn then kept else rels.Length
    ensures hasData ==> kept == |EmittedTo(old(rels[..]), c, rels.Length)|
    ensures hasData ==> rels[..kept] == EmittedTo(old(rels[..]), c, rels.Length)
    ensures hasData ==> data[..] == ApplyTo(old(data[..]), old(rels[..]), c, rels.Length)
    ensures hasData ==> errors == Errors(old(rels[..]), c, rels.Length)
    ensures !hasData ==> kept == 0 && errors == 0 && rels[..] == old(rels[..]) && data[..] == old(data[..])
  {
    hide PatchOf, Emitted, Apply, Rejected, Linking.Handles, Linking.Between;
    ghost var was, bytes := rels[..], data[..];
    kept, errors := 0, 0;
    if hasData {
      for i := 0 to rels.Length
        invariant kept <= i && kept == |EmittedTo(was, c, i)| && rels[..kept] == EmittedTo(was, c, i)
        invariant forall j :: kept <= j < rels.Length ==> rels[j] == was[j]
        invariant data[..] == ApplyTo(bytes, was, c, i) && errors == Errors(was, c, i)
      {
        assert c.Handles(was[i]) && was[i].offset + PatchOf(was[i], c).Width() <= data.Length;
        if c.Between(rels[i]) {
          RelocateDwarf(data, rels[i], c);
        } else {
          var error;
          kept, error := Relocate(data, rels, kept, i, c);
          errors := errors + (if error then 1 else 0);
        }
      }
    }
    size := if alloc && c.dyn then kept else rels.Length;
  }

  method RelocateDwarf(data: array<byte>, rel: Rel, c: Linking)
    requires c.Handles(rel) && c.Between(rel) && rel.offset + PatchOf(rel, c).Width() <= data.Length
    modifies data
    ensures data[..] == Apply(old(data[..]), rel.offset, PatchOf(rel, c))
    ensures Emitted(rel, c) == [] && !Rejected(rel, c)
  {
    hide Put32, Read32;
    var sym := c.symbols[RSym(rel.info)];
    AddLe32(data, rel.offset, sym.value - c.secAddrs[sym.shndx]);
  }

  /** Errors are reported exactly for 16-bit fields outside a flat binary. */
  lemma {:induction false} ErrorsMean(rels: seq<Rel>, c: Linking, k: nat)
    requires AllHandled(rels, c) && k <= |rels|
    ensures Errors(rels, c, k) == 0 <==>
      c.binary || forall i :: 0 <= i < k ==> RType(rels[i].info) != R_386_16 && RType(rels[i].info) != R_386_PC16
  {
    hide Linking.Handles, RType;
    if k > 0 {
      ErrorsMean(rels, c, k - 1);
    }
  }

  // ---------------------------------------------------------------- the two passes agree

  ghost predicate AllPrepared(rels: seq<Rel>, was: seq<Rel>, c: Linking)
    requires AllHandled(was, c)
  {
    |rels| == |was| && forall i :: 0 <= i < |was| ==> rels[i] == Prepared(was[i], c)
  }

  lemma PreparedHandled(r: Rel, c: Linking)
    requires c.Handles(r)
    ensures c.Handles(Prepared(r, c)) && RSym(Prepared(r, c).info) == RSym(r.info)
    ensures c.dyn ==> |Emitted(Prepared(r, c), c)| + (if c.Between(r) then 1 else 0) == Counted(r, c)
  {
    hide RInfo;
  }

  ghost function BetweenTo(rels: seq<Rel>, c: Linking, k: nat): nat
    requires AllHandled(rels, c) && k <= |rels|
  {
    if k == 0 then 0 else BetweenTo(rels, c, k - 1) + (if c.Between(rels[k - 1]) then 1 else 0)
  }

  /** Space was reserved for exactly the entries that are kept, and for those between DWARF sections,
      which are counted but not kept: the first pass counts, and changes types, so that the second
      emits that many. */
  lemma {:induction false} PassesAgree(was: seq<Rel>, rels: seq<Rel>, c: Linking, k: nat)
    requires AllHandled(was, c) && c.dyn && AllPrepared(rels, was, c) && k <= |was|
    ensures AllHandled(rels, c) && |EmittedTo(rels, c, k)| + BetweenTo(was, c, k) == CountTo(was, c, k)
  {
    hide Prepared, Emitted, Counted, Linking.Handles, Linking.Between;
    forall i | 0 <= i < |rels| ensures c.Handles(rels[i]) {
      PreparedHandled(was[i], c);
    }
    if k > 0 {
      PassesAgree(was, rels, c, k - 1);
      PreparedHandled(was[k - 1], c);
    }
  }

  /** Both passes on one section: the number kept is the number reserved exactly when the section
      has data and no relocation between DWARF sections, or when nothing was reserved. */
  method PrepareThenRelocate(data: array<byte>, hasData: bool, rels: array<Rel>, c: Linking)
    returns (reserved: nat, kept: nat)
    requires AllHandled(rels[..], c) && c.dyn
    requires hasData ==> forall i :: 0 <= i < rels.Length ==> rels[i].offset + 4 <= data.Length
    modifies data, rels
    ensures reserved == CountTo(old(rels[..]), c, rels.Length) && (!hasData ==> kept == 0)
    ensures hasData ==> kept + BetweenTo(old(rels[..]), c, rels.Length) == reserved
    ensures kept == reserved <==> (hasData && BetweenTo(old(rels[..]), c, rels.Length) == 0) || reserved == 0
  {
    hide Prepared, PatchOf, Counted, Emitted, Linking.Between;
    ghost var was := rels[..];
    reserved := PrepareDynamicRel(rels, c);
    PassesAgree(was, rels[..], c, |was|);
    forall i | 0 <= i < rels.Length ensures rels[i].offset == was[i].offset {
      PreparedOffset(was[i], c);
    }
    var size, errors;
    kept, size, errors := RelocateSection(data, hasData, true, rels, c);
  }

  /** An absolute relocation against a symbol of section 4. */
  function OneWord(dwarf: bool): (Linking, seq<Rel>) {
    (Linking([Sym([0x61], 0, 4, Info(STB_GLOBAL, 1), 0, 4)], [Attr(0, 0)], true, true, false, 0, 0,
             dwarf, 3, 5, [0, 0, 0, 0, 0]),
     [Rel(0, RInfo(0, R_386_32))])
  }

  lemma OneWordCounts(dwarf: bool)
    ensures var (c, rels) := OneWord(dwarf);
      AllHandled(rels, c) && |rels| == 1 && Counted(rels[0], c) == 1 && (c.Between(rels[0]) <==> dwarf)
  {
    var (c, rels) := OneWord(dwarf);
    assert RSym(rels[0].info) == 0 && RType(rels[0].info) == R_386_32;
  }

  /** An entry is reserved for it, which a section without data does not use. */
  lemma ReservedWithoutData()
    ensures var (c, rels) := OneWord(false); AllHandled(rels, c) && CountTo(rels, c, 1) == 1
  {
    OneWordCounts(false);
    hide OneWord, Counted;
    var (c, rels) := OneWord(false);
    assert CountTo(rels, c, 0) == 0;
  }

  /** If sections 3 and 4 are DWARF sections, the relocation of one against the other is counted
      but not kept. */
  lemma ReservedBetweenDwarf()
    ensures var (c, rels) := OneWord(true);
      AllHandled(rels, c) && CountTo(rels, c, 1) == 1 && EmittedTo(rels, c, 1) == []
  {
    OneWordCounts(true);
    hide OneWord, Counted, Linking.Between;
    var (c, rels) := OneWord(true);
    assert CountTo(rels, c, 0) == 0;
    assert EmittedTo(rels, c, 0) == [] && Emitted(rels[0], c) == [];
  }

  lemma PreparedOffset(r: Rel, c: Linking)
    requires c.Handles(r)
    ensures Prepared(r, c).offset == r.offset
  {
  }

  // ---------------------------------------------------------------- the patched fields

  /** How many bytes a relocation of this type may change. */
  function FieldSize(t: nat): nat {
    if t == R_386_16 || t == R_386_PC16 then 2
    else if t == R_386_32 || t == R_386_PC32 || t == R_386_PLT32 || t == R_386_GLOB_DAT || t == R_386_JMP_SLOT ||
      t == R_386_GOTPC || t == R_386_GOTOFF || t == R_386_GOT32 || t == R_386_GOT32X then 4
    else 0
  }

  predicate InField(x: nat, r: Rel) {
    r.offset <= x < r.offset + FieldSize(RType(r.info))
  }

  /** The fields of two relocations do not overlap. */
  predicate FieldsApart(r: Rel, s: Rel) {
    r.offset + FieldSize(RType(r.info)) <= s.offset || s.offset + FieldSize(RType(s.info)) <= r.offset
  }

  /** All fields lie inside the section, and no two overlap. */
  ghost predicate Disjoint(rels: seq<Rel>, size: nat) {
    (forall i :: 0 <= i < |rels| ==> rels[i].offset + FieldSize(RType(rels[i].info)) <= size) &&
    forall i, j :: 0 <= i < j < |rels| ==> FieldsApart(rels[i], rels[j])
  }

  lemma WidthFits(r: Rel, c: Linking)
    requires c.Handles(r)
    ensures PatchOf(r, c).Width() <= FieldSize(RType(r.info))
  {
  }

  lemma DisjointIn(rels: seq<Rel>, c: Linking, size: nat)
    requires AllHandled(rels, c) && Disjoint(rels, size)
    ensures FieldsIn(rels, c, size)
  {
    hide PatchOf, FieldSize, Linking.Handles;
    forall i | 0 <= i < |rels| ensures rels[i].offset + PatchOf(rels[i], c).Width() <= size {
      assert c.Handles(rels[i]);
      WidthFits(rels[i], c);
    }
  }

  lemma ApplyLocal(s: seq<byte>, p: nat, a: Patch)
    requires p + a.Width() <= |s|
    ensures forall x :: 0 <= x < |s| && !(p <= x < p + a.Width()) ==> Apply(s, p, a)[x] == s[x]
  {
  }

  /** A byte outside all fields keeps its value. */
  lemma {:induction false} BytesOutside(s: seq<byte>, rels: seq<Rel>, c: Linking, k: nat, x: nat)
    requires AllHandled(rels, c) && FieldsIn(rels, c, |s|) && k <= |rels| && x < |s|
    requires forall i :: 0 <= i < k ==> !InField(x, rels[i])
    ensures ApplyTo(s, rels, c, k)[x] == s[x]
  {
    hide PatchOf, Linking.Handles, Apply, FieldSize;
    if k > 0 {
      BytesOutside(s, rels, c, k - 1, x);
      assert !InField(x, rels[k - 1]);
      WidthFits(rels[k - 1], c);
      ApplyLocal(ApplyTo(s, rels, c, k - 1), rels[k - 1].offset, PatchOf(rels[k - 1], c));
    }
  }

  /** Each field of a disjoint list is patched once, from its old value. */
  lemma FieldPatched(s: seq<byte>, rels: seq<Rel>, c: Linking, i: nat)
    requires AllHandled(rels, c) && Disjoint(rels, |s|) && i < |rels|
    ensures FieldsIn(rels, c, |s|)
    ensures var p, a, r := rels[i].offset, PatchOf(rels[i], c), ApplyTo(s, rels, c, |rels|);
      p + FieldSize(RType(rels[i].info)) <= |s| == |r| && a.Width() <= FieldSize(RType(rels[i].info)) &&
      forall x :: 0 <= x < |s| && InField(x, rels[i]) ==> r[x] == Apply(s, p, a)[x]
  {
    hide Linking.Handles, Apply, FieldSize, PatchOf;
    DisjointIn(rels, c, |s|);
    WidthFits(rels[i], c);
    var p, a := rels[i].offset, PatchOf(rels[i], c);
    var before := ApplyTo(s, rels, c, i);
    forall x | 0 <= x < |s| && InField(x, rels[i]) ensures before[x] == s[x] {
      forall j | 0 <= j < i ensures !InField(x, rels[j]) {
        assert FieldsApart(rels[j], rels[i]);
      }
      BytesOutside(s, rels, c, i, x);
    }
    forall x | 0 <= x < |s| && InField(x, rels[i]) ensures ApplyTo(s, rels, c, |rels|)[x] == Apply(s, p, a)[x] {
      LaterFields(s, rels, c, i, |rels|, x);
      ApplySame(before, s, p, a, x);
    }
  }

  /** A patch depends on the bytes it changes only. */
  lemma ApplySame(s: seq<byte>, t: seq<byte>, p: nat, a: Patch, x: nat)
    requires |s| == |t| && p + a.Width() <= |s| && x < |s| && s[x] == t[x]
    requires forall y :: p <= y < p + a.Width() ==> s[y] == t[y]
    ensures Apply(s, p, a)[x] == Apply(t, p, a)[x]
  {
    hide Read32, Le32;
    if a.Add32? {
      ReadSame(s, t, p);
    }
  }

  lemma {:induction false} LaterFields(s: seq<byte>, rels: seq<Rel>, c: Linking, i: nat, k: nat, x: nat)
    requires AllHandled(rels, c) && FieldsIn(rels, c, |s|) && Disjoint(rels, |s|) && i < k <= |rels|
    requires x < |s| && InField(x, rels[i])
    ensures ApplyTo(s, rels, c, k)[x] == ApplyTo(s, rels, c, i + 1)[x]
    decreases k
  {
    hide PatchOf, Linking.Handles, Apply, FieldSize;
    if k > i + 1 {
      LaterFields(s, rels, c, i, k - 1, x);
      assert FieldsApart(rels[i], rels[k - 1]);
      WidthFits(rels[k - 1], c);
      ApplyLocal(ApplyTo(s, rels, c, k - 1), rels[k - 1].offset, PatchOf(rels[k - 1], c));
    }
  }

  /** The word or half word that a patch leaves. */
  ghost predicate Left(s: seq<byte>, r: seq<byte>, p: nat, a: Patch, size: nat)
    requires p + size <= |s| == |r|
  {
    if size == 4 then
      match a
      case Add32(x) => Read32(r, p) == Wrap32(Read32(s, p) + x)
      case Set32(x) => Read32(r, p) == Wrap32(x)
      case Add16(x) => true
      case Nothing => Read32(r, p) == Read32(s, p)
    else size == 2 && a.Add16? ==> Read16(r, p) == (Read16(s, p) + a.x) % 0x1_0000
  }

  lemma PatchedField(s: seq<byte>, r: seq<byte>, p: nat, a: Patch, size: nat)
    requires a.Width() <= size && p + size <= |s| == |r|
    requires forall x :: p <= x < p + size ==> r[x] == Apply(s, p, a)[x]
    ensures Left(s, r, p, a, size)
  {
    hide Read32, Put32, Wrap32;
    var t := Apply(s, p, a);
    if size == 4 {
      ReadSame(r, t, p);
      match a
      case Add32(x) => ReadPut(s, p, Read32(s, p) + x);
      case Set32(x) => ReadPut(s, p, x);
      case Add16(_) =>
      case Nothing =>
    } else if size == 2 && a.Add16? {
      assert r[p] == t[p] && r[p + 1] == t[p + 1];
      HalfWord(Read16(s, p) + a.x);
    }
  }

  lemma HalfWord(x: int)
    ensures x % 256 + 256 * (x / 256 % 256) == x % 0x1_0000
  {
    var q, r := x / 256 / 256, x % 256 + 256 * (x / 256 % 256);
    assert x == 0x1_0000 * q + r && 0 <= r < 0x1_0000;
  }

  // ---------------------------------------------------------------- what the fields mean

  lemma FieldRead(s: seq<byte>, rels: seq<Rel>, c: Linking, i: nat)
    requires AllHandled(rels, c) && Disjoint(rels, |s|) && i < |rels|
    ensures FieldsIn(rels, c, |s|) && rels[i].offset + FieldSize(RType(rels[i].info)) <= |s|
    ensures |ApplyTo(s, rels, c, |rels|)| == |s|
    ensures Left(s, ApplyTo(s, rels, c, |rels|), rels[i].offset, PatchOf(rels[i], c), FieldSize(RType(rels[i].info)))
  {
    FieldPatched(s, rels, c, i);
    hide ApplyTo, Apply, Left, Disjoint, PatchOf, FieldSize, Linking.Handles;
    PatchedField(s, ApplyTo(s, rels, c, |rels|), rels[i].offset, PatchOf(rels[i], c), FieldSize(RType(rels[i].info)));
  }

  /** Adding back what was subtracted, in 32 bits. */
  lemma Moves(x: int, d: int)
    ensures Wrap32(d + Wrap32(x - d)) == Wrap32(x)
  {
    WrapCongruent(d + Wrap32(x - d), x, -((x - d) / WORD));
  }

  lemma MovesHalf(x: int, d: int)
    ensures (d + (x - d) % 0x1_0000) % 0x1_0000 == x % 0x1_0000
  {
    var q := (x - d) / 0x1_0000;
    assert d + (x - d) % 0x1_0000 == x - q * 0x1_0000;
  }

  lemma WordStays(s: seq<byte>, r: seq<byte>, p: nat)
    requires p + 4 <= |s| == |r| && Left(s, r, p, Nothing, 4)
    ensures Read32(r, p) == Read32(s, p)
  {
  }

  lemma WordSet(s: seq<byte>, r: seq<byte>, p: nat, a: Patch)
    requires p + 4 <= |s| == |r| && a.Set32? && Left(s, r, p, a, 4)
    ensures Read32(r, p) == Wrap32(a.x)
  {
  }

  lemma WordMoves(s: seq<byte>, r: seq<byte>, p: nat, a: Patch, value: int, place: int)
    requires p + 4 <= |s| == |r| && a == Add32(value - place) && Left(s, r, p, a, 4)
    ensures Wrap32(place + Read32(r, p)) == Wrap32(value + Read32(s, p))
    ensures place == 0 ==> Read32(r, p) == Wrap32(value + Read32(s, p))
  {
    hide Read32;
    Moves(value + Read32(s, p), place);
    hide Wrap32;
    assert Read32(s, p) + (value - place) == value + Read32(s, p) - place;
  }

  lemma HalfMoves(s: seq<byte>, r: seq<byte>, p: nat, a: Patch, value: int, place: int)
    requires p + 2 <= |s| == |r| && a == Add16(value - place) && Left(s, r, p, a, 2)
    ensures (place + Read16(r, p)) % 0x1_0000 == (value + Read16(s, p)) % 0x1_0000
  {
    hide Read16;
    MovesHalf(value + Read16(s, p), place);
    assert Read16(s, p) + (value - place) == value + Read16(s, p) - place;
  }

  /** What an absolute field is relative to. */
  function Start(r: Rel, c: Linking): nat
    requires c.Handles(r)
  {
    if c.Between(r) then c.secAddrs[c.SymOf(r).shndx] else 0
  }

  lemma AbsolutePatch(r: Rel, c: Linking)
    requires c.Handles(r) && RType(r.info) == R_386_32
    ensures PatchOf(r, c) ==
      if !c.Between(r) && c.dyn && c.DynIndex(r) != 0 then Nothing else Add32(c.SymOf(r).value - Start(r, c))
  {
  }

  lemma BranchPatch(r: Rel, c: Linking)
    requires c.Handles(r) && (RType(r.info) == R_386_PC32 || RType(r.info) == R_386_PLT32)
    ensures PatchOf(r, c) ==
      if RType(r.info) == R_386_PC32 && c.dll && c.DynIndex(r) != 0 then Nothing
      else Add32(c.SymOf(r).value - (c.secAddr + r.offset))
  {
  }

  lemma GotPatch(r: Rel, c: Linking)
    requires c.Handles(r) && (RType(r.info) == R_386_GOTOFF || RType(r.info) == R_386_GOTPC)
    ensures PatchOf(r, c) ==
      if RType(r.info) == R_386_GOTOFF then Add32(c.SymOf(r).value - c.gotAddr)
      else Add32(c.gotAddr - (c.secAddr + r.offset))
  {
  }

  lemma SlotPatch(r: Rel, c: Linking)
    requires c.Handles(r) && RType(r.info) in {R_386_GOT32, R_386_GOT32X, R_386_GLOB_DAT, R_386_JMP_SLOT}
    ensures PatchOf(r, c) ==
      if RType(r.info) in {R_386_GOT32, R_386_GOT32X} then Add32(c.AttrOf(RSym(r.info)).gotOffset - 0)
      else Set32(c.SymOf(r).value)
  {
  }

  lemma HalfPatch(r: Rel, c: Linking)
    requires c.Handles(r) && (RType(r.info) == R_386_16 || RType(r.info) == R_386_PC16)
    ensures PatchOf(r, c) ==
      Add16(c.SymOf(r).value - (if RType(r.info) == R_386_PC16 && c.binary then c.secAddr + r.offset else 0))
  {
  }

  /** An absolute field: left to the loader against a dynamic symbol; between DWARF sections the
      offset in the section of the symbol; otherwise S plus the addend that stood there. */
  lemma AbsoluteField(s: seq<byte>, rels: seq<Rel>, c: Linking, i: nat)
    requires AllHandled(rels, c) && Disjoint(rels, |s|) && i < |rels| && RType(rels[i].info) == R_386_32
    ensures FieldsIn(rels, c, |s|) && rels[i].offset + 4 <= |s|
    ensures var p, r, sym := rels[i].offset, ApplyTo(s, rels, c, |rels|), c.SymOf(rels[i]);
      if c.dwarf && c.dwarfLow <= sym.shndx < c.dwarfHigh then
        Wrap32(c.secAddrs[sym.shndx] + Read32(r, p)) == Wrap32(sym.value + Read32(s, p))
      else if c.dyn && c.DynIndex(rels[i]) != 0 then Read32(r, p) == Read32(s, p)
      else Read32(r, p) == Wrap32(sym.value + Read32(s, p))
  {
    hide ApplyTo, PatchOf, Left, Read32, Read16, Wrap32;
    hide Disjoint, FieldsIn, Linking.Handles, Linking.SymOf, RSym, RType;
    assert c.Handles(rels[i]);
    FieldRead(s, rels, c, i);
    AbsolutePatch(rels[i], c);
    var sym, t, p := c.SymOf(rels[i]), ApplyTo(s, rels, c, |rels|), rels[i].offset;
    if PatchOf(rels[i], c).Nothing? {
      WordStays(s, t, p);
    } else {
      WordMoves(s, t, p, PatchOf(rels[i], c), sym.value, Start(rels[i], c));
    }
  }

  /** A field relative to its own place: a branch with addend -4 reaches S, unless it is left to
      the loader, in a library against a dynamic symbol. */
  lemma BranchField(s: seq<byte>, rels: seq<Rel>, c: Linking, i: nat)
    requires AllHandled(rels, c) && Disjoint(rels, |s|) && i < |rels|
    requires RType(rels[i].info) == R_386_PC32 || RType(rels[i].info) == R_386_PLT32
    ensures FieldsIn(rels, c, |s|) && rels[i].offset + 4 <= |s|
    ensures var p, r, sym := rels[i].offset, ApplyTo(s, rels, c, |rels|), c.SymOf(rels[i]);
      if RType(rels[i].info) == R_386_PC32 && c.dll && c.DynIndex(rels[i]) != 0 then Read32(r, p) == Read32(s, p)
      else Wrap32(c.secAddr + p + Read32(r, p)) == Wrap32(sym.value + Read32(s, p))
  {
    hide ApplyTo, PatchOf, Left, Read32, Read16, Wrap32;
    hide Disjoint, FieldsIn, Linking.Handles, Linking.SymOf, RSym, RType;
    assert c.Handles(rels[i]);
    FieldRead(s, rels, c, i);
    BranchPatch(rels[i], c);
    var sym, t, p := c.SymOf(rels[i]), ApplyTo(s, rels, c, |rels|), rels[i].offset;
    if PatchOf(rels[i], c).Nothing? {
      WordStays(s, t, p);
    } else {
      WordMoves(s, t, p, PatchOf(rels[i], c), sym.value, c.secAddr + p);
    }
  }

  /** The distance of the symbol from the GOT, and of the GOT from the field. */
  lemma GotDistance(s: seq<byte>, rels: seq<Rel>, c: Linking, i: nat)
    requires AllHandled(rels, c) && Disjoint(rels, |s|) && i < |rels|
    requires RType(rels[i].info) == R_386_GOTOFF || RType(rels[i].info) == R_386_GOTPC
    ensures FieldsIn(rels, c, |s|) && rels[i].offset + 4 <= |s|
    ensures var p, r, sym := rels[i].offset, ApplyTo(s, rels, c, |rels|), c.SymOf(rels[i]);
      if RType(rels[i].info) == R_386_GOTOFF then
        Wrap32(c.gotAddr + Read32(r, p)) == Wrap32(sym.value + Read32(s, p))
      else
        Wrap32(c.secAddr + p + Read32(r, p)) == Wrap32(c.gotAddr + Read32(s, p))
  {
    hide ApplyTo, PatchOf, Left, Read32, Read16, Wrap32;
    hide Disjoint, FieldsIn, Linking.Handles, Linking.SymOf, RSym, RType;
    assert c.Handles(rels[i]);
    FieldRead(s, rels, c, i);
    GotPatch(rels[i], c);
    var sym, t, p := c.SymOf(rels[i]), ApplyTo(s, rels, c, |rels|), rels[i].offset;
    if RType(rels[i].info) == R_386_GOTOFF {
      WordMoves(s, t, p, PatchOf(rels[i], c), sym.value, c.gotAddr);
    } else {
      WordMoves(s, t, p, PatchOf(rels[i], c), c.gotAddr, c.secAddr + p);
    }
  }

  /** The offset of the symbol's slot is added to the field, or its value is put there. */
  lemma SlotField(s: seq<byte>, rels: seq<Rel>, c: Linking, i: nat)
    requires AllHandled(rels, c) && Disjoint(rels, |s|) && i < |rels|
    requires RType(rels[i].info) in {R_386_GOT32, R_386_GOT32X, R_386_GLOB_DAT, R_386_JMP_SLOT}
    ensures FieldsIn(rels, c, |s|) && rels[i].offset + 4 <= |s|
    ensures var p, r, k := rels[i].offset, ApplyTo(s, rels, c, |rels|), RSym(rels[i].info);
      Read32(r, p) ==
        if RType(rels[i].info) in {R_386_GOT32, R_386_GOT32X} then Wrap32(c.AttrOf(k).gotOffset + Read32(s, p))
        else Wrap32(c.SymOf(rels[i]).value)
  {
    hide ApplyTo, PatchOf, Left, Read32, Read16, Wrap32, Disjoint, FieldsIn, RSym, RType;
    assert c.Handles(rels[i]);
    FieldRead(s, rels, c, i);
    SlotPatch(rels[i], c);
    var t, p, k := ApplyTo(s, rels, c, |rels|), rels[i].offset, RSym(rels[i].info);
    if PatchOf(rels[i], c).Add32? {
      WordMoves(s, t, p, PatchOf(rels[i], c), c.AttrOf(k).gotOffset, 0);
    } else {
      WordSet(s, t, p, PatchOf(rels[i], c));
    }
  }

  /** The 16-bit forms; relative to the field's own place in a flat binary only. */
  lemma HalfField(s: seq<byte>, rels: seq<Rel>, c: Linking, i: nat)
    requires AllHandled(rels, c) && Disjoint(rels, |s|) && i < |rels|
    requires RType(rels[i].info) == R_386_16 || RType(rels[i].info) == R_386_PC16
    ensures FieldsIn(rels, c, |s|) && rels[i].offset + 2 <= |s|
    ensures var p, r, sym := rels[i].offset, ApplyTo(s, rels, c, |rels|), c.SymOf(rels[i]);
      var place := if RType(rels[i].info) == R_386_PC16 && c.binary then c.secAddr + p else 0;
      (place + Read16(r, p)) % 0x1_0000 == (sym.value + Read16(s, p)) % 0x1_0000
  {
    hide ApplyTo, PatchOf, Left, Read32, Read16, Wrap32;
    hide Disjoint, FieldsIn, Linking.Handles, Linking.SymOf, RSym, RType;
    assert c.Handles(rels[i]);
    FieldRead(s, rels, c, i);
    HalfPatch(rels[i], c);
    var sym, t, p := c.SymOf(rels[i]), ApplyTo(s, rels, c, |rels|), rels[i].offset;
    var place := if RType(rels[i].info) == R_386_PC16 && c.binary then c.secAddr + p else 0;
    HalfMoves(s, t, p, PatchOf(rels[i], c), sym.value, place);
  }

  /** The first pass makes the second one resolve references to hidden symbols in place, even in a
      library against a dynamic symbol, and leave no entry for them. */
  lemma HiddenResolved(s: seq<byte>, was: seq<Rel>, rels: seq<Rel>, c: Linking, i: nat)
    requires AllHandled(was, c) && AllHandled(rels, c) && AllPrepared(rels, was, c) && Disjoint(rels, |s|) && i < |rels|
    requires RType(was[i].info) == R_386_PC32 && c.SymOf(was[i]).Defined()
    requires Visibility(c.SymOf(was[i]).other) == STV_HIDDEN
    ensures FieldsIn(rels, c, |s|) && rels[i].offset == was[i].offset && was[i].offset + 4 <= |s|
    ensures var p, r := was[i].offset, ApplyTo(s, rels, c, |rels|);
      Wrap32(c.secAddr + p + Read32(r, p)) == Wrap32(c.SymOf(was[i]).value + Read32(s, p)) && Emitted(rels[i], c) == []
  {
    hide ApplyTo, Read32, Wrap32, Disjoint, FieldsIn, Prepared, Emitted, Linking.Handles, RSym, RType;
    assert rels[i] == Prepared(was[i], c) && c.Handles(was[i]) && c.Handles(rels[i]);
    PreparedHandled(was[i], c);
    PreparedHidden(was[i], c);
    BranchField(s, rels, c, i);
  }

  lemma PreparedHidden(r: Rel, c: Linking)
    requires c.Handles(r) && RType(r.info) == R_386_PC32 && c.SymOf(r).Defined()
    requires Visibility(c.SymOf(r).other) == STV_HIDDEN && c.Handles(Prepared(r, c))
    ensures RType(Prepared(r, c).info) == R_386_PLT32 && Prepared(r, c).offset == r.offset
    ensures Emitted(Prepared(r, c), c) == []
  {
    hide RInfo;
  }

  /** And it makes the second one leave an absolute reference to a symbol that nobody defines alone. */
  lemma AbsentUntouched(s: seq<byte>, was: seq<Rel>, rels: seq<Rel>, c: Linking, i: nat, x: nat)
    requires AllHandled(was, c) && AllHandled(rels, c) && AllPrepared(rels, was, c) && Disjoint(rels, |s|)
    requires i < |rels| && RType(was[i].info) == R_386_32 && !c.SymOf(was[i]).Defined() && c.DynIndex(was[i]) == 0
    requires x < |s| && forall j :: 0 <= j < |rels| && j != i ==> !InField(x, rels[j])
    ensures FieldsIn(rels, c, |s|) && ApplyTo(s, rels, c, |rels|)[x] == s[x] && Emitted(rels[i], c) == []
  {
    hide ApplyTo, Disjoint, FieldsIn;
    assert rels[i] == Prepared(was[i], c);
    DisjointIn(rels, c, |s|);
    assert !InField(x, rels[i]);
    BytesOutside(s, rels, c, |rels|, x);
  }

  // ---------------------------------------------------------------- what the loader makes of them

  /** What the loader adds for an entry of an output loaded at base; values are those of the
      dynamic symbols. */
  function Added(e: Rel, secAddr: nat, base: nat, values: nat -> int): int {
    if RType(e.info) == R_386_RELATIVE then base
    else if RType(e.info) == R_386_32 then values(RSym(e.info))
    else if RType(e.info) == R_386_PC32 then values(RSym(e.info)) - (base + secAddr + e.offset)
    else 0
  }

  function LoadOne(s: seq<byte>, e: Rel, secAddr: nat, base: nat, values: nat -> int): (r: seq<byte>)
    ensures |r| == |s|
  {
    if e.offset + 4 > |s| then s
    else Put32(s, e.offset, Read32(s, e.offset) + Added(e, secAddr, base, values))
  }

  function Load(s: seq<byte>, es: seq<Rel>, secAddr: nat, base: nat, values: nat -> int): (r: seq<byte>)
    ensures |r| == |s|
  {
    if es == [] then s
    else LoadOne(Load(s, es[..|es| - 1], secAddr, base, values), es[|es| - 1], secAddr, base, values)
  }

  /** The entries that are left stand for the fields of their relocations only. */
  lemma {:induction false} LoadOutside(s: seq<byte>, rels: seq<Rel>, c: Linking, k: nat, x: nat, base: nat,
                                       values: nat -> int)
    requires AllHandled(rels, c) && k <= |rels| && x < |s| && forall i :: 0 <= i < k ==> !InField(x, rels[i])
    ensures Load(s, EmittedTo(rels, c, k), c.secAddr, base, values)[x] == s[x]
  {
    hide Linking.Handles, LoadOne, Emitted, EmittedTo, InField, Load;
    if k == 0 {
      LoadNothing(s, rels, c, base, values);
    } else {
      LoadOutside(s, rels, c, k - 1, x, base, values);
      LoadNext(s, rels, c, k, base, values);
      assert !InField(x, rels[k - 1]);
      if Emitted(rels[k - 1], c) != [] {
        LoadLocal(Load(s, EmittedTo(rels, c, k - 1), c.secAddr, base, values), rels[k - 1], c, base, values);
      }
    }
  }

  lemma LoadNothing(s: seq<byte>, rels: seq<Rel>, c: Linking, base: nat, values: nat -> int)
    requires AllHandled(rels, c)
    ensures Load(s, EmittedTo(rels, c, 0), c.secAddr, base, values) == s
  {
  }

  lemma LoadNext(s: seq<byte>, rels: seq<Rel>, c: Linking, k: nat, base: nat, values: nat -> int)
    requires AllHandled(rels, c) && 0 < k <= |rels|
    ensures var t, e := Load(s, EmittedTo(rels, c, k - 1), c.secAddr, base, values), Emitted(rels[k - 1], c);
      Load(s, EmittedTo(rels, c, k), c.secAddr, base, values) ==
        if e == [] then t else LoadOne(t, e[0], c.secAddr, base, values)
  {
    hide Linking.Handles, LoadOne, Emitted;
    var es, e := EmittedTo(rels, c, k - 1), Emitted(rels[k - 1], c);
    assert EmittedTo(rels, c, k) == es + e;
    if e == [] {
      assert es + e == es;
    } else {
      assert (es + e)[..|es + e| - 1] == es;
    }
  }

  /** An entry has the offset and, with a symbol, the type of its relocation. */
  lemma EmittedPlace(r: Rel, c: Linking)
    requires c.Handles(r) && Emitted(r, c) != []
    ensures var e := Emitted(r, c)[0];
      e.offset == r.offset && FieldSize(RType(r.info)) == 4
  {
    hide Linking.Between;
  }

  lemma LoadLocal(s: seq<byte>, r: Rel, c: Linking, base: nat, values: nat -> int)
    requires c.Handles(r) && Emitted(r, c) != []
    ensures var t := LoadOne(s, Emitted(r, c)[0], c.secAddr, base, values);
      forall x :: 0 <= x < |s| && !InField(x, r) ==> t[x] == s[x]
  {
    EmittedPlace(r, c);
    hide Emitted, Linking.Handles;
  }

  /** Whatever comes before and after, the field of relocation i is changed by its own entry only. */
  lemma {:induction false} LoadField(s: seq<byte>, rels: seq<Rel>, c: Linking, i: nat, k: nat, x: nat, base: nat,
                                     values: nat -> int)
    requires AllHandled(rels, c) && Disjoint(rels, |s|) && i < k <= |rels| && x < |s| && InField(x, rels[i])
    ensures Load(s, EmittedTo(rels, c, k), c.secAddr, base, values)[x] ==
      if Emitted(rels[i], c) == [] then s[x] else LoadOne(s, Emitted(rels[i], c)[0], c.secAddr, base, values)[x]
    decreases k
  {
    hide Linking.Handles, LoadOne, Emitted, EmittedTo, Load, FieldSize;
    LoadNext(s, rels, c, k, base, values);
    var t := Load(s, EmittedTo(rels, c, k - 1), c.secAddr, base, values);
    if k == i + 1 {
      forall y | 0 <= y < |s| && InField(y, rels[i]) ensures t[y] == s[y] {
        forall j | 0 <= j < i ensures !InField(y, rels[j]) {
          assert FieldsApart(rels[j], rels[i]);
        }
        LoadOutside(s, rels, c, i, y, base, values);
      }
      if Emitted(rels[i], c) != [] {
        LoadSame(t, s, rels[i], c, base, values, x);
      }
    } else {
      LoadField(s, rels, c, i, k - 1, x, base, values);
      assert FieldsApart(rels[i], rels[k - 1]);
      if Emitted(rels[k - 1], c) != [] {
        LoadLocal(t, rels[k - 1], c, base, values);
      }
    }
  }

  lemma LoadSame(t: seq<byte>, s: seq<byte>, r: Rel, c: Linking, base: nat, values: nat -> int, x: nat)
    requires c.Handles(r) && Emitted(r, c) != [] && |s| == |t| && x < |s| && InField(x, r)
    requires r.offset + FieldSize(RType(r.info)) <= |s|
    requires forall y :: 0 <= y < |s| && InField(y, r) ==> t[y] == s[y]
    ensures var e := Emitted(r, c)[0];
      LoadOne(t, e, c.secAddr, base, values)[x] == LoadOne(s, e, c.secAddr, base, values)[x]
  {
    EmittedPlace(r, c);
    hide Emitted, Linking.Handles, FieldSize, Read32, Put32, Le32, Added, RType, RSym;
    ReadSame(s, t, r.offset);
    var e := Emitted(r, c)[0];
    PutAt(s, r.offset, Read32(s, r.offset) + Added(e, c.secAddr, base, values), x);
    PutAt(t, r.offset, Read32(t, r.offset) + Added(e, c.secAddr, base, values), x);
  }

  lemma PutAt(s: seq<byte>, p: nat, v: int, x: nat)
    requires p <= x < p + 4 <= |s|
    ensures Put32(s, p, v)[x] == Le32(v)[x - p]
  {
    hide Le32;
  }

  lemma LoadWord(s: seq<byte>, r: seq<byte>, e: Rel, secAddr: nat, base: nat, values: nat -> int)
    requires e.offset + 4 <= |s| == |r|
    requires forall x :: e.offset <= x < e.offset + 4 ==> r[x] == LoadOne(s, e, secAddr, base, values)[x]
    ensures Read32(r, e.offset) == Wrap32(Read32(s, e.offset) + Added(e, secAddr, base, values))
  {
    hide Read32, Put32, Wrap32, Added;
    ReadSame(r, LoadOne(s, e, secAddr, base, values), e.offset);
    ReadPut(s, e.offset, Read32(s, e.offset) + Added(e, secAddr, base, values));
  }

  /** The field of a relocation once the output is loaded. */
  lemma LoadedWord(s: seq<byte>, rels: seq<Rel>, c: Linking, i: nat, base: nat, values: nat -> int)
    requires AllHandled(rels, c) && Disjoint(rels, |s|) && i < |rels| && FieldSize(RType(rels[i].info)) == 4
    ensures FieldsIn(rels, c, |s|) && rels[i].offset + 4 <= |s|
    ensures var p, t, e := rels[i].offset, ApplyTo(s, rels, c, |rels|), Emitted(rels[i], c);
      var r := Load(t, EmittedTo(rels, c, |rels|), c.secAddr, base, values);
      Read32(r, p) == if e == [] then Read32(t, p) else Wrap32(Read32(t, p) + Added(e[0], c.secAddr, base, values))
  {
    hide ApplyTo, EmittedTo, Load, LoadOne, Read32, Wrap32, FieldsIn, Emitted, Added, Linking.Handles;
    FieldRead(s, rels, c, i);
    var p, t, e := rels[i].offset, ApplyTo(s, rels, c, |rels|), Emitted(rels[i], c);
    var r := Load(t, EmittedTo(rels, c, |rels|), c.secAddr, base, values);
    forall x | p <= x < p + 4
      ensures r[x] == if e == [] then t[x] else LoadOne(t, e[0], c.secAddr, base, values)[x]
    {
      LoadField(t, rels, c, i, |rels|, x, base, values);
    }
    if e == [] {
      ReadSame(r, t, p);
    } else {
      EmittedPlace(rels[i], c);
      LoadWord(t, r, e[0], c.secAddr, base, values);
    }
  }

  lemma WrapAdd(x: int, y: int)
    ensures Wrap32(Wrap32(x) + y) == Wrap32(x + y)
  {
    WrapCongruent(Wrap32(x) + y, x + y, -(x / WORD));
  }

  /** Relocation and loading together: an absolute field holds the run-time value of its symbol plus
      the addend that stood there, wherever the output is loaded. */
  lemma LoadedAbsolute(s: seq<byte>, rels: seq<Rel>, c: Linking, i: nat, base: nat, values: nat -> int)
    requires AllHandled(rels, c) && c.dyn && Disjoint(rels, |s|) && i < |rels| && RType(rels[i].info) == R_386_32
    requires !c.Between(rels[i]) && c.DynIndex(rels[i]) < SYM_LIMIT
    ensures FieldsIn(rels, c, |s|) && rels[i].offset + 4 <= |s|
    ensures var r := Load(ApplyTo(s, rels, c, |rels|), EmittedTo(rels, c, |rels|), c.secAddr, base, values);
      var value := if c.DynIndex(rels[i]) != 0 then values(c.DynIndex(rels[i])) else base + c.SymOf(rels[i]).value;
      Read32(r, rels[i].offset) == Wrap32(value + Read32(s, rels[i].offset))
  {
    hide ApplyTo, EmittedTo, Load, Read32, Wrap32, Disjoint, FieldsIn, RInfo, RSym, RType;
    AbsoluteField(s, rels, c, i);
    LoadedWord(s, rels, c, i, base, values);
    WrapAdd(c.SymOf(rels[i]).value + Read32(s, rels[i].offset), base);
  }

  /** A field relative to its place leads to the run-time value of its symbol: in a library the one
      of the dynamic symbol, if there is one. */
  lemma LoadedBranch(s: seq<byte>, rels: seq<Rel>, c: Linking, i: nat, base: nat, values: nat -> int)
    requires AllHandled(rels, c) && c.dyn && Disjoint(rels, |s|) && i < |rels| && RType(rels[i].info) == R_386_PC32
    requires c.DynIndex(rels[i]) < SYM_LIMIT
    ensures FieldsIn(rels, c, |s|) && rels[i].offset + 4 <= |s|
    ensures var p, k := rels[i].offset, c.DynIndex(rels[i]);
      var r := Load(ApplyTo(s, rels, c, |rels|), EmittedTo(rels, c, |rels|), c.secAddr, base, values);
      var value := if c.dll && k != 0 then values(k) else base + c.SymOf(rels[i]).value;
      Wrap32(base + c.secAddr + p + Read32(r, p)) == Wrap32(value + Read32(s, p))
  {
    hide ApplyTo, EmittedTo, Load, Read32, Wrap32, Disjoint, FieldsIn, RInfo, RSym, RType;
    var p, k := rels[i].offset, c.DynIndex(rels[i]);
    BranchField(s, rels, c, i);
    LoadedWord(s, rels, c, i, base, values);
    var t := ApplyTo(s, rels, c, |rels|);
    if c.dll && k != 0 {
      Moves(values(k) + Read32(s, p), base + c.secAddr + p);
    } else {
      WrapAdd(c.secAddr + p + Read32(t, p), base);
      WrapAdd(c.SymOf(rels[i]).value + Read32(s, p), base);
    }
  }
}
