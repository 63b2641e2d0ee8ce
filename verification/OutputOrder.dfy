/** What the order of sort_sections means for the program that is loaded: protections in turn, bss
    last in its own, and every section with contents mapped to its address (tccelf.c). */
module OutputOrder {
  import opened SectionOrder
  import opened Layout
  import opened LayoutRun

  /** The section goes to memory. */
  predicate InMemory(s: Sec) {
    s.named && s.alloc
  }

  predicate SameProtection(s: Sec, t: Sec) {
    InMemory(s) && InMemory(t) && s.write == t.write && s.tls == t.tls
  }

  /** Read-only before writable, thread-local after both, then what is not loaded, then what has no
      name. */
  function Turn(s: Sec): nat {
    if !s.named then 5 else if !s.alloc then 4 else (if s.tls then 2 else 0) + (if s.write then 1 else 0)
  }

  /** Section p of the order as sort_sections found it. */
  ghost function Was(secs: seq<Sec>, order: seq<nat>, p: nat): Sec
    requires p + 1 < |order| && order[p + 1] < |secs|
  {
    secs[order[p + 1]]
  }

  /** The class of a section in memory is its protection, as it is left, and its contents. */
  lemma ClassParts(s: Sec, elf: bool, isLast: bool)
    requires InMemory(s)
    ensures var r := Adjusted(s, elf, isLast);
      Class(s, elf, isLast) == 0x100 + (if r.tls then 0x200 else 0) + (if r.write then 0x100 else 0)
        + Contents(s, Protection(s, elf), isLast)
  {
    hide Contents;
  }

  lemma TurnByClass(s: Sec, isLast: bool, t: Sec, isLast': bool)
    requires Class(s, true, isLast) <= Class(t, true, isLast')
    ensures Turn(Adjusted(s, true, isLast)) <= Turn(Adjusted(t, true, isLast'))
  {
    hide Contents;
  }

  lemma PlacedAt(secs: seq<Sec>, elf: bool, order: seq<nat>, ss: seq<Sec>, ks: seq<nat>, p: nat)
    requires Ordered(secs, elf, order, ss, ks) && p < |ss|
    ensures |order| == |secs| == |ss| + 1 == |ks| + 1 && 1 <= order[p + 1] < |secs|
    ensures var i := order[p + 1];
      ss[p] == Adjusted(secs[i], elf, i == |secs| - 1) && ks[p] == Class(secs[i], elf, i == |secs| - 1)
    ensures forall q :: p < q < |ks| ==> ks[p] <= ks[q]
  {
    assert Placed(secs, elf, order, ss, ks, p);
    hide Class, Adjusted, Placed;
  }

  /** Sections stand by protection. */
  lemma ByProtection(secs: seq<Sec>, order: seq<nat>, ss: seq<Sec>, ks: seq<nat>, p: nat, q: nat)
    requires Ordered(secs, true, order, ss, ks) && p < q < |ss|
    ensures Turn(ss[p]) <= Turn(ss[q])
  {
    hide Ordered, Class, Adjusted, Turn;
    PlacedAt(secs, true, order, ss, ks, p);
    PlacedAt(secs, true, order, ss, ks, q);
    var i, j := order[p + 1], order[q + 1];
    TurnByClass(secs[i], i == |secs| - 1, secs[j], j == |secs| - 1);
  }

  /** The sections that only relocation writes to are those that became writable or share their
      class: not executable, and arrays of functions, .dynamic, the GOT, or read-only data with
      relocations that are loaded. */
  lemma RelroMeans(s: Sec, elf: bool, isLast: bool)
    requires s.kind !in {Symtab, Dynsym, Strtab, Hash, GnuHash, Version, Reloc}
    ensures Class(s, elf, isLast) / 16 == RELRO <==>
      InMemory(s) && !s.tls && !s.exec &&
      (s.kind in {PreinitArray, InitArray, FiniArray, Dynamic} || s.got || (s.dynReloc && !s.write))
  {
  }

  /** Zero-filled data, not GOT, not code, and not among what only relocation writes to. */
  predicate PlainBss(s: Sec) {
    s.kind == Nobits && !s.exec && !s.got && (s.dynReloc ==> s.write || s.tls)
  }

  lemma BssContents(s: Sec, isLast: bool, t: Sec, isLast': bool)
    requires PlainBss(s) && InMemory(s) && InMemory(t) && Class(s, true, isLast) <= Class(t, true, isLast')
    requires SameProtection(Adjusted(s, true, isLast), Adjusted(t, true, isLast'))
    ensures t.kind == Nobits || (t.kind == Strtab && isLast')
  {
    ClassParts(s, true, isLast);
    ClassParts(t, true, isLast');
    hide Class, Protection, Adjusted;
  }

  /** Behind bss, in its protection, there is only bss, or a string table that is the last section
      of all. */
  lemma BssLast(secs: seq<Sec>, order: seq<nat>, ss: seq<Sec>, ks: seq<nat>, p: nat, q: nat)
    requires Ordered(secs, true, order, ss, ks) && p < q < |ss| && SameProtection(ss[p], ss[q])
    requires order[p + 1] < |secs| && PlainBss(Was(secs, order, p))
    ensures ss[q].kind == Nobits || (ss[q].kind == Strtab && order[q + 1] == |secs| - 1)
  {
    hide Ordered, Class, PlainBss;
    PlacedAt(secs, true, order, ss, ks, p);
    PlacedAt(secs, true, order, ss, ks, q);
    var i, j := order[p + 1], order[q + 1];
    BssContents(secs[i], i == |secs| - 1, secs[j], j == |secs| - 1);
  }

  lemma InterpContents(s: Sec, isLast: bool, t: Sec, isLast': bool)
    requires t.interp && t.kind == Progbits && !t.exec && !t.got && (t.dynReloc ==> t.write || t.tls)
    requires InMemory(s) && InMemory(t) && Class(s, true, isLast) <= Class(t, true, isLast')
    requires SameProtection(Adjusted(s, true, isLast), Adjusted(t, true, isLast'))
    ensures s.interp
  {
    ClassParts(s, true, isLast);
    ClassParts(t, true, isLast');
    hide Class, Protection, Adjusted;
  }

  /** The name of the interpreter comes first in its protection. */
  lemma InterpFirst(secs: seq<Sec>, order: seq<nat>, ss: seq<Sec>, ks: seq<nat>, p: nat, q: nat)
    requires Ordered(secs, true, order, ss, ks) && p < q < |ss| && SameProtection(ss[p], ss[q])
    requires order[q + 1] < |secs|
    requires var t := Was(secs, order, q);
      t.interp && t.kind == Progbits && !t.exec && !t.got && (t.dynReloc ==> t.write || t.tls)
    ensures ss[p].interp
  {
    hide Ordered, Class;
    PlacedAt(secs, true, order, ss, ks, p);
    PlacedAt(secs, true, order, ss, ks, q);
    var i, j := order[p + 1], order[q + 1];
    InterpContents(secs[i], i == |secs| - 1, secs[j], j == |secs| - 1);
  }

  /** The relocations of the PLT come after all others of their protection, so that the ranges
      DT_REL and DT_JMPREL do not mix. */
  lemma PltRelocsLast(secs: seq<Sec>, order: seq<nat>, ss: seq<Sec>, ks: seq<nat>, p: nat, q: nat)
    requires Ordered(secs, true, order, ss, ks) && p < q < |ss| && SameProtection(ss[p], ss[q])
    requires ss[p].kind == Reloc && ss[q].kind == Reloc && ss[p].pltReloc
    ensures ss[q].pltReloc
  {
    hide Ordered, Class;
    PlacedAt(secs, true, order, ss, ks, p);
    PlacedAt(secs, true, order, ss, ks, q);
    var i, j := order[p + 1], order[q + 1];
    ClassParts(secs[i], true, i == |secs| - 1);
    ClassParts(secs[j], true, j == |secs| - 1);
    hide Protection, Adjusted;
  }

  /** Within a protection: the interpreter's name, symbol tables with their strings, hashes and
      versions, relocations, code, what only relocation writes to, data, notes, zero-filled data. */
  function Contained(s: Sec): nat {
    if s.kind in {Symtab, Dynsym, Strtab, Hash, GnuHash, Version} && !(s.kind == Strtab && s.stabstr) then 1
    else if s.kind == Reloc then 2
    else if s.exec then 3
    else if s.got || s.kind in {PreinitArray, InitArray, FiniArray, Dynamic} then 4
    else if s.kind == Note then 6
    else if s.kind == Nobits then 7
    else if s.interp then 0
    else 5
  }

  lemma ContainedIs(s: Sec)
    requires InMemory(s) && (s.dynReloc ==> s.write || s.tls)
    ensures Contained(s) == Contents(s, Protection(s, true), false) / 16
  {
  }

  lemma ContainedByClass(s: Sec, t: Sec)
    requires InMemory(s) && InMemory(t) && Class(s, true, false) <= Class(t, true, false)
    requires SameProtection(Adjusted(s, true, false), Adjusted(t, true, false))
    requires (s.dynReloc ==> s.write || s.tls) && (t.dynReloc ==> t.write || t.tls)
    ensures Contained(s) <= Contained(t)
  {
    ClassParts(s, true, false);
    ClassParts(t, true, false);
    ContainedIs(s);
    ContainedIs(t);
    hide Class, Protection, Adjusted, Contents, Contained;
  }

  /** Sections in memory of one protection stand by what they contain, when the last section of all
      is not among them and neither has relocations by which the loader writes to it. */
  lemma ByContents(secs: seq<Sec>, order: seq<nat>, ss: seq<Sec>, ks: seq<nat>, p: nat, q: nat)
    requires Ordered(secs, true, order, ss, ks) && p < q < |ss| && SameProtection(ss[p], ss[q])
    requires order[p + 1] < |secs| && order[q + 1] < |secs| && !InMemory(secs[|secs| - 1])
    requires Was(secs, order, p).dynReloc ==> Was(secs, order, p).write || Was(secs, order, p).tls
    requires Was(secs, order, q).dynReloc ==> Was(secs, order, q).write || Was(secs, order, q).tls
    ensures Contained(ss[p]) <= Contained(ss[q])
  {
    hide Ordered, Class, Contained, Adjusted;
    PlacedAt(secs, true, order, ss, ks, p);
    PlacedAt(secs, true, order, ss, ks, q);
    var i, j := order[p + 1], order[q + 1];
    AdjustedContains(secs[i], i == |secs| - 1);
    AdjustedContains(secs[j], j == |secs| - 1);
    ContainedByClass(secs[i], secs[j]);
  }

  lemma AdjustedContains(s: Sec, isLast: bool)
    ensures Contained(Adjusted(s, true, isLast)) == Contained(s)
    ensures InMemory(Adjusted(s, true, isLast)) == InMemory(s)
  {
    hide Contents;
  }

  /** .shstrtab, the last section, stays the last of those that go to the file. */
  lemma NamesLast(secs: seq<Sec>, order: seq<nat>, ss: seq<Sec>, ks: seq<nat>, p: nat, q: nat)
    requires Ordered(secs, true, order, ss, ks) && p < q < |ss| && order[p + 1] == |secs| - 1
    requires ss[p].kind == Strtab && !ss[p].stabstr && ss[p].named && !ss[p].alloc
    ensures !ss[q].named
  {
    OrderedOnce(secs, order, ss, ks, p, q);
    hide Ordered, Class, Adjusted;
    PlacedAt(secs, true, order, ss, ks, p);
    PlacedAt(secs, true, order, ss, ks, q);
    NameClass(secs[|secs| - 1], secs[order[q + 1]]);
  }

  lemma OrderedOnce(secs: seq<Sec>, order: seq<nat>, ss: seq<Sec>, ks: seq<nat>, p: nat, q: nat)
    requires Ordered(secs, true, order, ss, ks) && p < q < |ss|
    ensures |order| == |ss| + 1 && order[p + 1] != order[q + 1]
  {
  }

  lemma NameClass(s: Sec, t: Sec)
    requires var r := Adjusted(s, true, true); r.kind == Strtab && !r.stabstr && r.named && !r.alloc
    requires Class(s, true, true) <= Class(t, true, false)
    ensures !Adjusted(t, true, false).named
  {
  }

  // ---------------------------------------------------------------- an ordinary program

  predicate NonemptyBss(s: Sec) {
    InMemory(s) && s.kind == Nobits && s.size > 0
  }

  /** No thread-local sections, one bss at most, which is writable data, and a last section, the
      names of the others, that is not loaded. */
  ghost predicate OneBss(secs: seq<Sec>) {
    |secs| > 0 && !InMemory(secs[|secs| - 1]) &&
    (forall i :: 1 <= i < |secs| && InMemory(secs[i]) ==> !secs[i].tls) &&
    (forall i :: 1 <= i < |secs| && NonemptyBss(secs[i]) ==> secs[i].write && !secs[i].exec && !secs[i].got) &&
    (forall i, j :: 1 <= i < j < |secs| ==> !(NonemptyBss(secs[i]) && NonemptyBss(secs[j])))
  }

  lemma AdjustedMemory(s: Sec, isLast: bool)
    ensures var r := Adjusted(s, true, isLast);
      r.kind == s.kind && r.size == s.size && r.tls == s.tls && InMemory(r) == InMemory(s) && (s.write ==> r.write)
    ensures Class(s, true, isLast) < UNLOADED <==> InMemory(s)
  {
    hide Contents;
  }

  /** After the bss of an ordinary program nothing is in memory but empty bss. */
  lemma NothingAfterBss(secs: seq<Sec>, order: seq<nat>, ss: seq<Sec>, ks: seq<nat>, p: nat, q: nat)
    requires Ordered(secs, true, order, ss, ks) && OneBss(secs) && p < q < |ss|
    requires FileSize(ss[p]) != ss[p].size && ks[q] < UNLOADED
    ensures ss[q].kind == Nobits && ss[q].size == 0
  {
    PlacedAt(secs, true, order, ss, ks, p);
    PlacedAt(secs, true, order, ss, ks, q);
    OrderedOnce(secs, order, ss, ks, p, q);
    ByProtection(secs, order, ss, ks, p, q);
    var i, j := order[p + 1], order[q + 1];
    hide Ordered, Class, Adjusted, Placed;
    AdjustedMemory(secs[i], i == |secs| - 1);
    AdjustedMemory(secs[j], j == |secs| - 1);
    assert NonemptyBss(secs[i]);
    BssLast(secs, order, ss, ks, p, q);
    assert !NonemptyBss(secs[j]) by {
      assert i < j || j < i;
    }
  }

  /** Section k is mapped by a segment of its protection: its bytes in the file come to its address. */
  ghost predicate Loads(l: Lay, s: Sec, k: nat) {
    exists m: nat :: m < |l.phs| && Permits(l.phs[m].flags, s) && Inside(l, s, l.phs[m].flags, m, k) && Mapped(l, m, k)
  }

  /** In an ordinary program every section with contents is mapped to its address, by a segment of
      its protection, and, for a page-aligned base, all segments can be mapped. */
  lemma AllMapped(secs: seq<Sec>, order: seq<nat>, ss: seq<Sec>, ks: seq<nat>, c: Config)
    requires Ordered(secs, true, order, ss, ks) && OneBss(secs) && c.elf
    requires c.page > 0 && forall k :: 1 <= k < |secs| ==> secs[k].align > 0
    ensures var segs := MarkTo(ss, ks, |ss|).segs;
      Sound(ss, segs, c) && NoneAfterBss(ss, segs) &&
      (c.base % c.page == 0 ==> HeadersCongruent(Fold(ss, segs, c, |ss|), c.page)) &&
      forall k :: 0 <= k < |ss| && ks[k] < UNLOADED && ss[k].size > 0 && ss[k].kind != Nobits ==>
        Loads(Fold(ss, segs, c, |ss|), ss[k], k)
  {
    LayoutSound(secs, order, ss, ks, c);
    OrderedAligns(secs, order, ss, ks, c);
    hide Fold, Ordered, OneBss, HeadersCongruent, AlignedApart, PagesApart, FileFits, MarkTo, InSegment, Loads;
    hide FlagsOf, Permits;
    var segs := MarkTo(ss, ks, |ss|).segs;
    MarksMean(ss, ks, |ss|);
    Segmented(ss, ks, segs);
    forall j, k | 0 <= j < k < |ss| && segs[j].Loaded? && segs[k].Loaded? && segs[k].starts
      ensures FileSize(ss[j]) == ss[j].size
    {
      assert Covered(segs, ss[k], ks[k], k);
      if FileSize(ss[j]) != ss[j].size {
        NothingAfterBss(secs, order, ss, ks, j, k);
      }
    }
    forall k | 0 <= k < |ss| && ks[k] < UNLOADED && ss[k].size > 0 && ss[k].kind != Nobits
      ensures Loads(Fold(ss, segs, c, |ss|), ss[k], k)
    {
      assert Covered(segs, ss[k], ks[k], k);
      forall j | 0 <= j < k ensures FileSize(ss[j]) == ss[j].size {
        if FileSize(ss[j]) != ss[j].size {
          NothingAfterBss(secs, order, ss, ks, j, k);
        }
      }
      SectionLoads(ss, segs, c, ks[k], k);
    }
  }

  lemma SectionLoads(ss: seq<Sec>, segs: seq<Seg>, c: Config, key: nat, k: nat)
    requires Sound(ss, segs, c) && LoadedFirst(segs) && AllInSegments(ss, segs)
    requires k < |ss| && segs[k].Loaded? && ss[k].size > 0 && Covered(segs, ss[k], key, k)
    requires forall j :: 0 <= j < k ==> FileSize(ss[j]) == ss[j].size
    ensures Loads(Fold(ss, segs, c, |ss|), ss[k], k)
  {
    hide Fold, Inside, Mapped, FlagsOf, Permits, FileSize, AllInSegments;
    SectionInside(ss, segs, c, k, |ss|);
    SectionMapped(ss, segs, c, k, |ss|);
    InsideMeans(Fold(ss, segs, c, |ss|), ss[k], key, Starts(segs, k + 1) - 1, k);
  }

  lemma Segmented(ss: seq<Sec>, ks: seq<nat>, segs: seq<Seg>)
    requires |segs| == |ss| == |ks|
    requires forall k :: 0 <= k < |ss| && segs[k].Loaded? ==> Covered(segs, ss[k], ks[k], k)
    ensures AllInSegments(ss, segs)
  {
    forall j | 0 <= j < |ss| && segs[j].Loaded? && ss[j].size > 0 ensures Starts(segs, j + 1) > 0 {
      assert Covered(segs, ss[j], ks[j], j);
      CurrentStarted(segs, j + 1);
    }
  }

  lemma {:induction false} CurrentStarted(segs: seq<Seg>, i: nat)
    requires i <= |segs| && Current(segs, i) != None
    ensures Starts(segs, i) > 0
  {
    if !(segs[i - 1].Loaded? && segs[i - 1].starts) {
      CurrentStarted(segs, i - 1);
    }
  }

  /** Sections of one segment have one protection, and RELRO sections have segments of their own. */
  lemma {:induction false} SegmentUniform(ss: seq<Sec>, ks: seq<nat>, j: nat, k: nat)
    requires |ss| == |ks| && j < k < |ss| && ks[j] < UNLOADED && ks[k] < UNLOADED && ss[j].size > 0 && ss[k].size > 0
    requires var segs := MarkTo(ss, ks, |ss|).segs; Starts(segs, j + 1) == Starts(segs, k + 1)
    ensures ss[j].write == ss[k].write && ss[j].exec == ss[k].exec && ss[j].tls == ss[k].tls
    ensures ks[j] / 16 == RELRO <==> ks[k] / 16 == RELRO
  {
    hide MarkTo, FlagsOf, Starts, Current;
    MarksMean(ss, ks, |ss|);
    var segs := MarkTo(ss, ks, |ss|).segs;
    assert Covered(segs, ss[j], ks[j], j);
    assert Covered(segs, ss[k], ks[k], k);
    SameCurrent(segs, j + 1, k + 1);
    FlagsAgree(ss[j], ks[j], ss[k], ks[k]);
  }

  lemma FlagsAgree(s: Sec, a: nat, t: Sec, b: nat)
    requires FlagsOf(s, a) == FlagsOf(t, b)
    ensures s.write == t.write && s.exec == t.exec && s.tls == t.tls && (a / 16 == RELRO <==> b / 16 == RELRO)
  {
  }
}
