/** layout_sections as it runs, in 32-bit arithmetic over arrays, and what it guarantees for every
    list of sections (tccelf.c; System V gABI chapter 5, Program Header). */
module LayoutRun {
  import opened Bits
  import opened Bytes
  import opened SectionOrder
  import opened Layout

  const EHDR_SIZE: nat := 52
  const PHDR_SIZE: nat := 32
  const SHDR_SIZE: nat := 40

  /** The file header, the program headers up to a multiple of four, and the section headers. */
  function HeaderSize(phnum: nat, shnum: nat): nat {
    ShOff(phnum) + shnum * SHDR_SIZE
  }

  /** e_shoff: after the file header and the program headers, on a multiple of four. */
  function ShOff(phnum: nat): (r: nat)
    ensures r % 4 == 0 && EHDR_SIZE + phnum * PHDR_SIZE <= r < EHDR_SIZE + phnum * PHDR_SIZE + 4
  {
    UpToFour(EHDR_SIZE + phnum * PHDR_SIZE)
  }

  /** The smallest multiple of four that is not below n. */
  function UpToFour(n: nat): (r: nat)
    ensures r % 4 == 0 && n <= r < n + 4
  {
    (n + 3) / 4 * 4
  }

  /** The powers of two that fit a 32-bit word. */
  predicate Aligns(a: nat) {
    a > 0 && WORD % a == 0
  }

  /** Where the layout ends, addresses are below 2^32 and file offsets below 2^31; alignments are
      powers of two. */
  ghost predicate NoOverflow(ss: seq<Sec>, segs: seq<Seg>, c: Config) {
    Sound(ss, segs, c) && Fold(ss, segs, c, |ss|).addr < WORD && Fold(ss, segs, c, |ss|).off < INT_LIMIT &&
    Aligns(c.page) && forall k :: 0 <= k < |ss| ==> Aligns(ss[k].align)
  }

  /** addr = (addr + align - 1) & -align, in 32 bits. */
  function AlignUp32(x: nat, a: nat): nat
    requires a > 0
  {
    Wrap32(Wrap32(x + a - 1) / a * a)
  }

  /** Rounding up does not wrap when its result fits. */
  lemma AlignUp32Exact(x: nat, a: nat)
    requires Aligns(a) && AlignUp(x, a) < WORD
    ensures AlignUp32(x, a) == AlignUp(x, a)
  {
    var q, m := (x + a - 1) / a, WORD / a;
    assert WORD == m * a;
    if m <= q {
      MulLe(m, q, a);
      assert false;
    }
    MulLe(q + 1, m, a);
    assert x + a - 1 == q * a + (x + a - 1) % a;
    assert (q + 1) * a == q * a + a;
  }

  /** layout_sections for sections already in output order. The headers were counted before, so the
      table of program headers has room for all of them after the first phfill. */
  method LayoutSections(ss: seq<Sec>, segs: seq<Seg>, c: Config, phdr: array<Phdr>, phfill: nat)
    returns (shAddr: array<nat>, shOffset: array<nat>)
    requires NoOverflow(ss, segs, c) && phfill + Starts(segs, |ss|) <= phdr.Length
    modifies phdr
    ensures fresh(shAddr) && fresh(shOffset)
    ensures var l := Fold(ss, segs, c, |ss|);
      shAddr[..] == l.addrs && shOffset[..] == l.offs &&
      |l.phs| == Starts(segs, |ss|) && phdr[phfill..phfill + |l.phs|] == l.phs
  {
    hide Fold, Starts, AlignUp32;
    shAddr, shOffset := new nat[|ss|], new nat[|ss|];
    var fileOffset: nat, addr: nat, n: nat := c.header, Wrap32(c.base + c.header), 0;
    FoldStart(ss, segs, c);
    FoldGrows(ss, segs, c, 0, |ss|);
    for i := 0 to |ss|
      invariant shAddr.Length == shOffset.Length == |ss|
      invariant Holds(Fold(ss, segs, c, i), addr, fileOffset, n, shAddr[..i], shOffset[..i], phdr[..], phfill)
    {
      n, addr, fileOffset := LayoutOne(ss, segs, c, i, phdr, phfill, n, addr, fileOffset, shAddr, shOffset);
    }
    HeaderCount(ss, segs, c, |ss|);
    assert shAddr[..|ss|] == shAddr[..] && shOffset[..|ss|] == shOffset[..];
  }

  /** The variables of the loop hold the layout l. */
  ghost predicate Holds(l: Lay, addr: nat, off: nat, n: nat, addrs: seq<nat>, offs: seq<nat>, phdr: seq<Phdr>,
                        phfill: nat) {
    l.addr == addr && l.off == off && |l.phs| == n && l.addrs == addrs && l.offs == offs &&
    phfill + n <= |phdr| && phdr[phfill..phfill + n] == l.phs
  }

  /** One turn of the loop of layout_sections. */
  method LayoutOne(ss: seq<Sec>, segs: seq<Seg>, c: Config, i: nat, phdr: array<Phdr>, phfill: nat,
                   n0: nat, addr0: nat, off0: nat, shAddr: array<nat>, shOffset: array<nat>)
    returns (n: nat, addr: nat, fileOffset: nat)
    requires NoOverflow(ss, segs, c) && phfill + Starts(segs, |ss|) <= phdr.Length && i < |ss|
    requires shAddr != shOffset && shAddr.Length == shOffset.Length == |ss|
    requires Holds(Fold(ss, segs, c, i), addr0, off0, n0, shAddr[..i], shOffset[..i], phdr[..], phfill)
    modifies phdr, shAddr, shOffset
    ensures Holds(Fold(ss, segs, c, i + 1), addr, fileOffset, n, shAddr[..i + 1], shOffset[..i + 1], phdr[..], phfill)
  {
    hide StepLoaded, StepUnloaded, Starts, NoOverflow, Behind, Holds, FileSize;
    RoomAt(ss, segs, c, i);
    ghost var l := Fold(ss, segs, c, i);
    HeadersFit(ss, segs, c, i);
    HoldsCount(l, addr0, off0, n0, shAddr[..i], shOffset[..i], phdr[..], phfill);
    match segs[i]
    case Unloaded =>
      fileOffset := LayoutUnloaded(l, ss[i], i, phdr, phfill, n0, addr0, off0, shAddr, shOffset);
      n, addr := n0, addr0;
    case Loaded(f, starts) =>
      n, addr, fileOffset := LayoutLoaded(l, ss[i], f, starts, c, i, phdr, phfill, n0, addr0, off0, shAddr, shOffset);
  }

  lemma HoldsCount(l: Lay, addr: nat, off: nat, n: nat, addrs: seq<nat>, offs: seq<nat>, phdr: seq<Phdr>, phfill: nat)
    requires Holds(l, addr, off, n, addrs, offs, phdr, phfill)
    ensures |l.phs| == n
  {
  }

  /** A section that is not loaded has a place in the file only. */
  method LayoutUnloaded(ghost l: Lay, s: Sec, i: nat, phdr: array<Phdr>, phfill: nat,
                        n: nat, addr: nat, off: nat, shAddr: array<nat>, shOffset: array<nat>)
    returns (fileOffset: nat)
    requires s.align > 0 && shAddr != shOffset && i < shAddr.Length == shOffset.Length
    requires Holds(l, addr, off, n, shAddr[..i], shOffset[..i], phdr[..], phfill)
    modifies shAddr, shOffset
    ensures Holds(StepUnloaded(l, s), addr, fileOffset, n, shAddr[..i + 1], shOffset[..i + 1], phdr[..], phfill)
  {
    hide AlignUp, FileSize;
    fileOffset := AlignUp(off, s.align);
    shAddr[i], shOffset[i] := 0, fileOffset;
    fileOffset := fileOffset + FileSize(s);
  }

  /** A loaded section continues the last program header or opens a new one. */
  method LayoutLoaded(ghost l: Lay, s: Sec, f: Flags, starts: bool, c: Config, i: nat, phdr: array<Phdr>, phfill: nat,
                      n0: nat, addr0: nat, off0: nat, shAddr: array<nat>, shOffset: array<nat>)
    returns (n: nat, addr: nat, fileOffset: nat)
    requires Aligns(s.align) && Aligns(c.page) && Behind(l, c)
    requires StepLoaded(l, s, f, starts, c).addr < WORD
    requires shAddr != shOffset && i < shAddr.Length == shOffset.Length
    requires phfill + n0 + (if starts then 1 else 0) <= phdr.Length
    requires Holds(l, addr0, off0, n0, shAddr[..i], shOffset[..i], phdr[..], phfill)
    modifies phdr, shAddr, shOffset
    ensures Holds(StepLoaded(l, s, f, starts, c), addr, fileOffset, n, shAddr[..i + 1], shOffset[..i + 1],
                  phdr[..], phfill)
  {
    hide StepLoaded, AlignUp, FileSize, Behind, NextAddr, Skip, NewHeader, Closes, Closed;
    LoadedParts(l, s, f, starts, c);
    addr, fileOffset := PlaceLoaded(l, s, starts, c, n0, addr0, off0);
    shAddr[i], shOffset[i] := addr, fileOffset;
    assert shAddr[..i + 1] == old(shAddr[..i]) + [addr] && shOffset[..i + 1] == old(shOffset[..i]) + [fileOffset];
    n := UpdateHeaders(l.phs, phdr, phfill, n0, starts, NewHeader(f, addr, fileOffset, s, c, n0),
                       fileOffset + FileSize(s), addr + s.size);
    addr := Wrap32(addr + s.size);
    fileOffset := fileOffset + FileSize(s);
  }

  /** A header is opened if the section starts one, and the last header is made to end with it. */
  method UpdateHeaders(ghost phs: seq<Phdr>, phdr: array<Phdr>, phfill: nat, n0: nat, starts: bool, ph: Phdr,
                       off: nat, addr: nat) returns (n: nat)
    requires phfill + n0 + (if starts then 1 else 0) <= phdr.Length && phdr[phfill..phfill + n0] == phs
    requires Closes(if starts then phs + [ph] else phs, off, addr)
    modifies phdr
    ensures n == n0 + (if starts then 1 else 0) && phfill + n <= phdr.Length
    ensures phdr[phfill..phfill + n] == Closed(if starts then phs + [ph] else phs, off, addr)
  {
    n := n0;
    if starts {
      OpenHeader(phdr, phfill, n, ph);
      n := n + 1;
    }
    if n > 0 {
      CloseHeader(phdr, phfill, n, off, addr);
    }
  }

  method OpenHeader(phdr: array<Phdr>, phfill: nat, n: nat, ph: Phdr)
    requires phfill + n < phdr.Length
    modifies phdr
    ensures phdr[phfill..phfill + n + 1] == old(phdr[phfill..phfill + n]) + [ph]
  {
    phdr[phfill + n] := ph;
  }

  /** The last header is made to end here. */
  method CloseHeader(phdr: array<Phdr>, phfill: nat, n: nat, off: nat, addr: nat)
    requires n > 0 && phfill + n <= phdr.Length
    requires phdr[phfill..phfill + n][n - 1].offset <= off && phdr[phfill..phfill + n][n - 1].vaddr <= addr
    modifies phdr
    ensures Closes(old(phdr[phfill..phfill + n]), off, addr)
    ensures phdr[phfill..phfill + n] == Closed(old(phdr[phfill..phfill + n]), off, addr)
  {
    var ph := phdr[phfill + n - 1];
    phdr[phfill + n - 1] := ph.(filesz := off - ph.offset, memsz := addr - ph.vaddr);
  }

  predicate Closes(phs: seq<Phdr>, off: nat, addr: nat) {
    phs != [] ==> phs[|phs| - 1].offset <= off && phs[|phs| - 1].vaddr <= addr
  }

  function Closed(phs: seq<Phdr>, off: nat, addr: nat): (r: seq<Phdr>)
    requires Closes(phs, off, addr)
    ensures |r| == |phs|
  {
    if phs == [] then [] else
      var ph := phs[|phs| - 1];
      phs[|phs| - 1 := ph.(filesz := off - ph.offset, memsz := addr - ph.vaddr)]
  }

  /** Opening a program header. */
  function NewHeader(f: Flags, a: nat, o: nat, s: Sec, c: Config, n: nat): Phdr {
    var align := if f.tls && (c.elf || n == 0) then s.align else c.page;
    if n == 0 then Phdr(f, 0, c.base, 0, 0, align) else Phdr(f, o, a, 0, 0, align)
  }

  /** The alignment of a loaded section. */
  method PlaceLoaded(ghost l: Lay, s: Sec, starts: bool, c: Config, n: nat, addr0: nat, off0: nat)
    returns (addr: nat, fileOffset: nat)
    requires Aligns(s.align) && Aligns(c.page) && addr0 == l.addr && off0 == l.off && n == |l.phs|
    requires NextAddr(l, s, starts, c) < WORD
    ensures addr == NextAddr(l, s, starts, c) && fileOffset == l.off + Skip(l, s, starts, c)
  {
    hide AlignUp;
    addr, fileOffset := addr0, off0;
    var align := s.align;
    if starts && n > 0 {
      if c.elf {
        if addr % c.page != 0 {
          addr := Wrap32(addr + c.page);
        }
      } else {
        align := c.page;
      }
    }
    var tmp := addr;
    AlignUp32Exact(addr, align);
    addr := AlignUp32(addr, align);
    fileOffset := fileOffset + (addr - tmp);
  }

  lemma RoomAt(ss: seq<Sec>, segs: seq<Seg>, c: Config, i: nat)
    requires NoOverflow(ss, segs, c) && i < |ss|
    ensures Fold(ss, segs, c, i).addr <= Fold(ss, segs, c, i + 1).addr < WORD
    ensures Sound(ss, segs, c) && Aligns(c.page) && Aligns(ss[i].align)
  {
    FoldGrows(ss, segs, c, i, i + 1);
    FoldGrows(ss, segs, c, i + 1, |ss|);
    hide Fold;
  }

  lemma HeadersFit(ss: seq<Sec>, segs: seq<Seg>, c: Config, i: nat)
    requires Sound(ss, segs, c) && i < |ss|
    ensures |Fold(ss, segs, c, i).phs| == Starts(segs, i)
    ensures Starts(segs, i) + (if segs[i].Loaded? && segs[i].starts then 1 else 0) <= Starts(segs, |ss|)
  {
    hide Fold;
    HeaderCount(ss, segs, c, i);
    StartsGrow(segs, i + 1, |ss|);
  }

  lemma {:induction false} StartsGrow(segs: seq<Seg>, i: nat, j: nat)
    requires i <= j <= |segs|
    ensures Starts(segs, i) <= Starts(segs, j)
    decreases j
  {
    if i < j {
      StartsGrow(segs, i, j - 1);
    }
  }

  lemma LoadedParts(l: Lay, s: Sec, f: Flags, starts: bool, c: Config)
    requires s.align > 0 && c.page > 0 && Behind(l, c)
    ensures var a, o := NextAddr(l, s, starts, c), l.off + Skip(l, s, starts, c);
      var phs := if starts then l.phs + [NewHeader(f, a, o, s, c, |l.phs|)] else l.phs;
      var r := StepLoaded(l, s, f, starts, c);
      Closes(phs, r.off, r.addr) &&
      r == Lay(a + s.size, o + FileSize(s), l.addrs + [a], l.offs + [o], Closed(phs, r.off, r.addr))
  {
    hide AlignUp;
  }

  // ---------------------------------------------------------------- from the section list to the segments

  /** sort_sections: the sections in output order, as adjusted, with their classes and marks. */
  method SortSections(secs: seq<Sec>, elf: bool)
    returns (order: array<nat>, ss: seq<Sec>, ks: seq<nat>, segs: seq<Seg>, n: nat, shnum: nat)
    requires |secs| > 0
    ensures order.Length == |secs| && order[0] == 0 && Ordered(secs, elf, order[..], ss, ks)
    ensures segs == MarkTo(ss, ks, |ss|).segs && n == MarkTo(ss, ks, |ss|).count && shnum == 1 + Listed(ks, |ks|)
  {
    hide Class, Adjusted, Ranked, MarkTo;
    var cls;
    order, cls := SortByClass(secs, elf);
    RankedFacts(order[..], cls[..], secs, elf);
    ss, ks := [], [];
    for i := 1 to |secs|
      invariant |ss| == |ks| == i - 1
      invariant forall p :: 0 <= p < i - 1 ==>
        ss[p] == Adjusted(secs[order[p + 1]], elf, order[p + 1] == |secs| - 1) && ks[p] == cls[p + 1]
    {
      ss, ks := ss + [Adjusted(secs[order[i]], elf, order[i] == |secs| - 1)], ks + [cls[i]];
    }
    RankedOrder(order[..], cls[..], secs, elf, ss, ks);
    segs, n, shnum := MarkSegments(ss, ks);
  }

  lemma RankedFacts(order: seq<nat>, cls: seq<nat>, secs: seq<Sec>, elf: bool)
    requires Ranked(order, cls, secs, elf, |secs|)
    ensures |order| == |cls| == |secs| && forall p :: 1 <= p < |secs| ==> 1 <= order[p] < |secs|
  {
  }

  /** ss and ks list the sections of secs, but the null section, once each, class by class, and in
      their old order within a class. */
  ghost predicate Ordered(secs: seq<Sec>, elf: bool, order: seq<nat>, ss: seq<Sec>, ks: seq<nat>) {
    |order| == |secs| == |ss| + 1 == |ks| + 1 &&
    (forall p, q :: 1 <= p < q < |order| ==> order[p] != order[q]) &&
    (forall p :: 0 <= p < |ss| ==> Placed(secs, elf, order, ss, ks, p)) &&
    (forall p, q :: 0 <= p < q < |ks| ==> ks[p] <= ks[q]) &&
    (forall p, q :: 1 <= p < q < |order| ==> ks[p - 1] == ks[q - 1] ==> order[p] < order[q])
  }

  ghost predicate Placed(secs: seq<Sec>, elf: bool, order: seq<nat>, ss: seq<Sec>, ks: seq<nat>, p: nat)
    requires |order| == |ss| + 1 == |ks| + 1 && p < |ss|
  {
    var i := order[p + 1];
    1 <= i < |secs| && ss[p] == Adjusted(secs[i], elf, i == |secs| - 1) && ks[p] == Class(secs[i], elf, i == |secs| - 1)
  }

  lemma RankedOrder(order: seq<nat>, cls: seq<nat>, secs: seq<Sec>, elf: bool, ss: seq<Sec>, ks: seq<nat>)
    requires Ranked(order, cls, secs, elf, |secs|) && |ss| == |ks| == |secs| - 1
    requires forall p :: 1 <= p < |secs| ==> 1 <= order[p] < |secs|
    requires forall p :: 0 <= p < |ss| ==>
      ss[p] == Adjusted(secs[order[p + 1]], elf, order[p + 1] == |secs| - 1) && ks[p] == cls[p + 1]
    ensures Ordered(secs, elf, order, ss, ks)
  {
    hide Class, Adjusted;
  }

  /** Every section has its alignment, and no two overlap. */
  ghost predicate AlignedApart(ss: seq<Sec>, segs: seq<Seg>, c: Config, l: Lay) {
    |l.addrs| == |l.offs| == |ss| == |segs| && c.page > 0 && (forall k :: 0 <= k < |ss| ==> ss[k].align > 0) &&
    (forall k :: 0 <= k < |ss| ==> IsAligned(ss[k], segs[k], Starts(segs, k) > 0, c, l.addrs[k], l.offs[k])) &&
    (forall k :: 0 <= k < |ss| ==> c.header <= l.offs[k]) &&
    (forall j, k :: 0 <= j < k < |ss| ==> l.offs[j] + FileSize(ss[j]) <= l.offs[k]) &&
    (forall j, k :: 0 <= j < k < |ss| && segs[j].Loaded? && segs[k].Loaded? ==> l.addrs[j] + ss[j].size <= l.addrs[k])
  }

  /** In a flat binary a section that opens a further segment is aligned to a page instead. */
  predicate IsAligned(s: Sec, g: Seg, later: bool, c: Config, addr: nat, off: nat)
    requires s.align > 0 && c.page > 0
  {
    if g.Unloaded? then addr == 0 && off % s.align == 0
    else if c.elf || !g.starts || !later then addr % s.align == 0
    else addr % c.page == 0
  }

  /** The layout of every list of sections that sort_sections hands over: sections aligned and
      apart, as many headers as were counted, no segment longer in the file than in memory, segments
      on pages of their own, every loaded section inside a segment of exactly its protection, and,
      for a page-aligned base and nothing loaded after bss, addresses and offsets that agree within
      a page. */
  lemma LayoutSound(secs: seq<Sec>, order: seq<nat>, ss: seq<Sec>, ks: seq<nat>, c: Config)
    requires Ordered(secs, c.elf, order, ss, ks)
    requires c.page > 0 && (forall k :: 1 <= k < |secs| ==> secs[k].align > 0)
    ensures var m := MarkTo(ss, ks, |ss|);
      Sound(ss, m.segs, c) && LoadedFirst(m.segs)
    ensures var m := MarkTo(ss, ks, |ss|);
      var l := Fold(ss, m.segs, c, |ss|);
      AlignedApart(ss, m.segs, c, l) &&
      |l.phs| == m.count && FileFits(l) && PagesApart(l, c.page) &&
      (c.base % c.page == 0 && NoneAfterBss(ss, m.segs) ==> HeadersCongruent(l, c.page)) &&
      forall k :: 0 <= k < |ss| && ks[k] < UNLOADED && ss[k].size > 0 ==> InSegment(l, ss[k], k)
  {
    OrderedAligns(secs, order, ss, ks, c);
    hide Fold, AlignUp, AlignDown, Congruent, MarkTo, FileFits;
    hide PagesApart, HeadersCongruent, Ordered, AlignedApart, InSegment;
    MarksMean(ss, ks, |ss|);
    var segs := MarkTo(ss, ks, |ss|).segs;
    HeaderCount(ss, segs, c, |ss|);
    FileSizeFits(ss, segs, c, |ss|);
    SegmentsOnOwnPages(ss, segs, c, |ss|);
    SoundApart(ss, segs, c);
    if c.base % c.page == 0 && NoneAfterBss(ss, segs) {
      SegmentsMappable(ss, segs, c, |ss|);
    }
    forall k | 0 <= k < |ss| && ks[k] < UNLOADED && ss[k].size > 0
      ensures InSegment(Fold(ss, segs, c, |ss|), ss[k], k)
    {
      assert Covered(segs, ss[k], ks[k], k);
      SegmentHolds(ss, segs, c, ks[k], k);
    }
  }

  lemma OrderedAligns(secs: seq<Sec>, order: seq<nat>, ss: seq<Sec>, ks: seq<nat>, c: Config)
    requires Ordered(secs, c.elf, order, ss, ks) && forall k :: 1 <= k < |secs| ==> secs[k].align > 0
    ensures |ss| == |ks| && (forall k :: 0 <= k < |ss| ==> ss[k].align > 0)
    ensures forall p, q :: 0 <= p < q < |ks| ==> ks[p] <= ks[q]
  {
    forall p | 0 <= p < |ss| ensures ss[p].align > 0 {
      assert Placed(secs, c.elf, order, ss, ks, p);
    }
  }

  lemma SoundApart(ss: seq<Sec>, segs: seq<Seg>, c: Config)
    requires Sound(ss, segs, c)
    ensures AlignedApart(ss, segs, c, Fold(ss, segs, c, |ss|))
  {
    hide Fold, FileSize;
    forall j, k | 0 <= j < k < |ss|
      ensures var l := Fold(ss, segs, c, |ss|); l.offs[j] + FileSize(ss[j]) <= l.offs[k]
      ensures var l := Fold(ss, segs, c, |ss|);
        segs[j].Loaded? && segs[k].Loaded? ==> l.addrs[j] + ss[j].size <= l.addrs[k]
    {
      SectionsApart(ss, segs, c, j, k);
    }
    forall k | 0 <= k < |ss|
      ensures var l := Fold(ss, segs, c, |ss|); IsAligned(ss[k], segs[k], Starts(segs, k) > 0, c, l.addrs[k], l.offs[k])
      ensures c.header <= Fold(ss, segs, c, |ss|).offs[k]
    {
      SectionAligned(ss, segs, c, k);
      AfterHeader(ss, segs, c, k);
    }
  }

  lemma AfterHeader(ss: seq<Sec>, segs: seq<Seg>, c: Config, k: nat)
    requires Sound(ss, segs, c) && k < |ss|
    ensures c.header <= Fold(ss, segs, c, |ss|).offs[k]
  {
    SectionAt(ss, segs, c, k, |ss|);
    FoldOrder(ss, segs, c, 0, k);
    FoldStart(ss, segs, c);
    hide Fold;
  }

  /** Section k lies inside a segment of exactly its protection. */
  ghost predicate InSegment(l: Lay, s: Sec, k: nat) {
    exists m: nat :: m < |l.phs| && Permits(l.phs[m].flags, s) && Inside(l, s, l.phs[m].flags, m, k)
  }

  predicate Permits(f: Flags, s: Sec) {
    f.write == s.write && f.exec == s.exec && f.tls == s.tls
  }

  lemma SegmentHolds(ss: seq<Sec>, segs: seq<Seg>, c: Config, key: nat, k: nat)
    requires Sound(ss, segs, c) && LoadedFirst(segs) && k < |ss| && segs[k].Loaded? && ss[k].size > 0
    requires Covered(segs, ss[k], key, k)
    ensures InSegment(Fold(ss, segs, c, |ss|), ss[k], k)
  {
    hide Fold, Inside, FlagsOf, Permits;
    SectionInside(ss, segs, c, k, |ss|);
    InsideMeans(Fold(ss, segs, c, |ss|), ss[k], key, Starts(segs, k + 1) - 1, k);
  }

  lemma InsideMeans(l: Lay, s: Sec, key: nat, m: nat, k: nat)
    requires Inside(l, s, FlagsOf(s, key), m, k)
    ensures m < |l.phs| && Permits(l.phs[m].flags, s) && Inside(l, s, l.phs[m].flags, m, k)
  {
  }
}
