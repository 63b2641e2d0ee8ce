/** Segments and addresses: the second half of sort_sections, and layout_sections (tccelf.c). */
module Layout {
  import opened Bits
  import opened SectionOrder

  // ---------------------------------------------------------------- which sections start a segment

  /** The protection of a segment; relro sections get a segment of their own. */
  datatype Flags = Flags(write: bool, exec: bool, tls: bool, relro: bool)

  datatype Seg = Unloaded | Loaded(flags: Flags, starts: bool)

  function FlagsOf(s: Sec, k: nat): Flags {
    Flags(s.write, s.exec, s.tls, k / 16 == RELRO)
  }

  datatype Option<T> = None | Some(value: T)

  /** The marks on the sections so far, the protection in force, the number of segments. */
  datatype Marks = Marks(segs: seq<Seg>, current: Option<Flags>, count: nat)

  function MarkNext(m: Marks, s: Sec, k: nat): Marks {
    if k >= UNLOADED then
      m.(segs := m.segs + [Unloaded])
    else
      var f := FlagsOf(s, k);
      if Some(f) != m.current && s.size != 0 then
        Marks(m.segs + [Loaded(f, true)], Some(f), m.count + 1)
      else
        m.(segs := m.segs + [Loaded(f, false)])
  }

  ghost function MarkTo(ss: seq<Sec>, ks: seq<nat>, i: nat): (m: Marks)
    requires i <= |ss| == |ks|
    ensures |m.segs| == i
  {
    if i == 0 then Marks([], None, 0) else MarkNext(MarkTo(ss, ks, i - 1), ss[i - 1], ks[i - 1])
  }

  /** The number of sections that get a section header. */
  ghost function Listed(ks: seq<nat>, i: nat): nat
    requires i <= |ks|
  {
    if i == 0 then 0 else Listed(ks, i - 1) + (if ks[i - 1] < UNLISTED then 1 else 0)
  }

  /** The loop of sort_sections that counts the section headers and the PT_LOAD headers. */
  method MarkSegments(ss: seq<Sec>, ks: seq<nat>) returns (segs: seq<Seg>, n: nat, shnum: nat)
    requires |ss| == |ks|
    ensures segs == MarkTo(ss, ks, |ss|).segs && n == MarkTo(ss, ks, |ss|).count && shnum == 1 + Listed(ks, |ks|)
  {
    segs, n, shnum := [], 0, 1;
    var f0 := None;
    for i := 0 to |ss|
      invariant MarkTo(ss, ks, i) == Marks(segs, f0, n) && shnum == 1 + Listed(ks, i)
    {
      if ks[i] < UNLISTED {
        shnum := shnum + 1;
      }
      if ks[i] < UNLOADED {
        var f := FlagsOf(ss[i], ks[i]);
        var starts := Some(f) != f0 && ss[i].size != 0;
        if starts {
          f0, n := Some(f), n + 1;
        }
        segs := segs + [Loaded(f, starts)];
      } else {
        segs := segs + [Unloaded];
      }
    }
  }

  ghost function Starts(segs: seq<Seg>, i: nat): (n: nat)
    requires i <= |segs|
  {
    if i == 0 then 0
    else Starts(segs, i - 1) + (if segs[i - 1].Loaded? && segs[i - 1].starts then 1 else 0)
  }

  /** The protection of the last segment started before i. */
  ghost function Current(segs: seq<Seg>, i: nat): Option<Flags>
    requires i <= |segs|
  {
    if i == 0 then None
    else if segs[i - 1].Loaded? && segs[i - 1].starts then Some(segs[i - 1].flags)
    else Current(segs, i - 1)
  }

  ghost predicate Covered(segs: seq<Seg>, s: Sec, key: nat, k: nat)
    requires k < |segs| && segs[k].Loaded?
  {
    segs[k].flags == FlagsOf(s, key) && (segs[k].starts ==> s.size > 0) &&
    (s.size > 0 ==> Current(segs, k + 1) == Some(segs[k].flags))
  }

  /** The count is the number of marks, and a loaded section that is not empty is covered by a
      segment of exactly its protection. */
  lemma {:induction false} MarksMean(ss: seq<Sec>, ks: seq<nat>, i: nat)
    requires i <= |ss| == |ks|
    ensures var m := MarkTo(ss, ks, i);
      m.count == Starts(m.segs, i) && m.current == Current(m.segs, i) &&
      (forall k :: 0 <= k < i ==> (m.segs[k].Loaded? <==> ks[k] < UNLOADED)) &&
      forall k :: 0 <= k < i && m.segs[k].Loaded? ==> Covered(m.segs, ss[k], ks[k], k)
  {
    if i > 0 {
      var m, m' := MarkTo(ss, ks, i - 1), MarkTo(ss, ks, i);
      MarksMean(ss, ks, i - 1);
      hide FlagsOf;
      forall k | 0 <= k <= i - 1
        ensures Starts(m'.segs, k) == Starts(m.segs, k) && Current(m'.segs, k) == Current(m.segs, k)
      {
        SameMarks(m.segs, m'.segs, k);
      }
      forall k | 0 <= k < i - 1 && m'.segs[k].Loaded? ensures Covered(m'.segs, ss[k], ks[k], k) {
        assert Covered(m.segs, ss[k], ks[k], k);
      }
    }
  }

  /** The protection in force does not change without a new segment. */
  lemma {:induction false} SameCurrent(segs: seq<Seg>, i: nat, j: nat)
    requires i <= j <= |segs| && Starts(segs, i) == Starts(segs, j)
    ensures Current(segs, i) == Current(segs, j)
    decreases j
  {
    if i < j {
      StartsUpTo(segs, i, j - 1);
      SameCurrent(segs, i, j - 1);
    }
  }

  lemma SameMarks(a: seq<Seg>, b: seq<Seg>, k: nat)
    requires k <= |a| && a <= b
    ensures Starts(b, k) == Starts(a, k) && Current(b, k) == Current(a, k)
  {
  }

  // ---------------------------------------------------------------- addresses and offsets

  /** The smallest multiple of a that is not below x: (x + a - 1) & -a for a power of two. */
  function AlignUp(x: nat, a: nat): (r: nat)
    requires a > 0
    ensures x <= r < x + a && r % a == 0
  {
    DivBounds(x, a);
    (x + a - 1) / a * a
  }

  lemma DivBounds(x: nat, a: nat)
    requires a > 0
    ensures x <= (x + a - 1) / a * a < x + a && (x + a - 1) / a * a % a == 0
  {
    var q, r := (x + a - 1) / a, (x + a - 1) % a;
    assert x + a - 1 == q * a + r;
    MultipleMod(q, a);
  }

  lemma MultipleMod(q: nat, a: nat)
    requires a > 0
    ensures q * a % a == 0
  {
    var m := q * a;
    var q', r := m / a, m % a;
    assert m == q' * a + r;
    if q' < q {
      MulLe(q' + 1, q, a);
    } else if q < q' {
      MulLe(q + 1, q', a);
    }
  }

  /** A program header; the first one also covers the headers of the file. */
  datatype Phdr = Phdr(flags: Flags, offset: nat, vaddr: nat, filesz: nat, memsz: nat, align: nat)

  /** The output format, the base address, the page size and the size of all headers. */
  datatype Config = Config(elf: bool, base: nat, page: nat, header: nat)

  /** layout_sections after some sections: the next address and file offset, the values given to
      those sections, and the program headers so far. */
  datatype Lay = Lay(addr: nat, off: nat, addrs: seq<nat>, offs: seq<nat>, phs: seq<Phdr>)

  function FileSize(s: Sec): nat {
    if s.kind == Nobits then 0 else s.size
  }

  function StepUnloaded(l: Lay, s: Sec): (r: Lay)
    requires s.align > 0
    ensures r.addr == l.addr && r.phs == l.phs && |r.addrs| == |l.addrs| + 1 && |r.offs| == |l.offs| + 1
    ensures l.addrs <= r.addrs && l.offs <= r.offs && l.off <= r.offs[|l.offs|] &&
      r.off == r.offs[|l.offs|] + FileSize(s)
  {
    var off := AlignUp(l.off, s.align);
    l.(off := off + FileSize(s), addrs := l.addrs + [0], offs := l.offs + [off])
  }

  /** The address of the next loaded section: a new segment in the middle of a page goes on in a
      second copy of that page. */
  function NextAddr(l: Lay, s: Sec, starts: bool, c: Config): (a: nat)
    requires s.align > 0 && c.page > 0
    ensures a >= l.addr
  {
    var jump := starts && |l.phs| > 0;
    var a := if jump && c.elf && l.addr % c.page != 0 then l.addr + c.page else l.addr;
    AlignUp(a, if jump && !c.elf then c.page else s.align)
  }

  /** How far the file offset moves for the alignment of the address. */
  function Skip(l: Lay, s: Sec, starts: bool, c: Config): nat
    requires s.align > 0 && c.page > 0
  {
    var jump := starts && |l.phs| > 0;
    var a := if jump && c.elf && l.addr % c.page != 0 then l.addr + c.page else l.addr;
    NextAddr(l, s, starts, c) - a
  }

  function Extended(phs: seq<Phdr>, addr: nat, off: nat): (r: seq<Phdr>)
    requires |phs| > 0 ==> phs[|phs| - 1].offset <= off && phs[|phs| - 1].vaddr <= addr
    ensures |r| == |phs| && (forall m :: 0 <= m < |phs| - 1 ==> r[m] == phs[m])
  {
    if phs == [] then phs
    else
      var n := |phs| - 1;
      phs[n := phs[n].(filesz := off - phs[n].offset, memsz := addr - phs[n].vaddr)]
  }

  function Opened(phs: seq<Phdr>, f: Flags, a: nat, o: nat, s: Sec, c: Config): seq<Phdr> {
    var align := if f.tls && (c.elf || phs == []) then s.align else c.page;
    phs + [if phs == [] then Phdr(f, 0, c.base, 0, 0, align) else Phdr(f, o, a, 0, 0, align)]
  }

  /** Every header begins at or before the current place. */
  ghost predicate Behind(l: Lay, c: Config) {
    c.base <= l.addr && forall m :: 0 <= m < |l.phs| ==> l.phs[m].offset <= l.off && l.phs[m].vaddr <= l.addr
  }

  ghost function StepLoaded(l: Lay, s: Sec, f: Flags, starts: bool, c: Config): (r: Lay)
    requires s.align > 0 && c.page > 0 && Behind(l, c)
    ensures Behind(r, c) && |r.addrs| == |l.addrs| + 1 && |r.offs| == |l.offs| + 1
    ensures l.addrs <= r.addrs && l.addr <= r.addrs[|l.addrs|] == NextAddr(l, s, starts, c) &&
      r.addr == r.addrs[|l.addrs|] + s.size
    ensures l.offs <= r.offs && l.off <= r.offs[|l.offs|] && r.off == r.offs[|l.offs|] + FileSize(s)
    ensures |r.phs| == |l.phs| + (if starts then 1 else 0)
  {
    var a, o := NextAddr(l, s, starts, c), l.off + Skip(l, s, starts, c);
    var phs := if starts then Opened(l.phs, f, a, o, s, c) else l.phs;
    Lay(a + s.size, o + FileSize(s), l.addrs + [a], l.offs + [o], Extended(phs, a + s.size, o + FileSize(s)))
  }

  ghost predicate Sound(ss: seq<Sec>, segs: seq<Seg>, c: Config) {
    |segs| == |ss| && c.page > 0 && forall k :: 0 <= k < |ss| ==> ss[k].align > 0
  }

  /** The layout of the first i sections. */
  ghost function Fold(ss: seq<Sec>, segs: seq<Seg>, c: Config, i: nat): (l: Lay)
    requires Sound(ss, segs, c) && i <= |ss|
    ensures Behind(l, c) && |l.addrs| == |l.offs| == i
  {
    if i == 0 then
      Lay(c.base + c.header, c.header, [], [], [])
    else
      var l := Fold(ss, segs, c, i - 1);
      match segs[i - 1]
      case Unloaded => StepUnloaded(l, ss[i - 1])
      case Loaded(f, starts) => StepLoaded(l, ss[i - 1], f, starts, c)
  }

  lemma {:induction false} FoldGrows(ss: seq<Sec>, segs: seq<Seg>, c: Config, i: nat, j: nat)
    requires Sound(ss, segs, c) && i <= j <= |ss|
    ensures var l, m := Fold(ss, segs, c, i), Fold(ss, segs, c, j);
      l.addr <= m.addr && l.off <= m.off && l.addrs <= m.addrs && l.offs <= m.offs && |l.phs| <= |m.phs|
    decreases j
  {
    hide StepLoaded, StepUnloaded, Behind, FileSize, Sound;
    if i < j {
      FoldGrows(ss, segs, c, i, j - 1);
    }
  }

  /** Where section k is put, whatever comes after it. */
  lemma SectionAt(ss: seq<Sec>, segs: seq<Seg>, c: Config, k: nat, i: nat)
    requires Sound(ss, segs, c) && k < i <= |ss|
    ensures var before, after, l := Fold(ss, segs, c, k), Fold(ss, segs, c, k + 1), Fold(ss, segs, c, i);
      l.addrs[k] == after.addrs[k] && l.offs[k] == after.offs[k] &&
      before.off <= l.offs[k] && l.offs[k] + FileSize(ss[k]) == after.off <= l.off &&
      (segs[k].Loaded? ==> before.addr <= l.addrs[k] && l.addrs[k] + ss[k].size == after.addr <= l.addr)
  {
    hide StepLoaded, StepUnloaded, Behind, FileSize;
    FoldGrows(ss, segs, c, k + 1, i);
  }

  /** Loaded sections have aligned addresses, the others aligned file offsets and address 0; in a flat binary a
      section that opens a new segment is aligned to a page instead. */
  lemma SectionAligned(ss: seq<Sec>, segs: seq<Seg>, c: Config, k: nat)
    requires Sound(ss, segs, c) && k < |ss|
    ensures var l := Fold(ss, segs, c, |ss|);
      if segs[k].Unloaded? then l.addrs[k] == 0 && l.offs[k] % ss[k].align == 0
      else if c.elf || !segs[k].starts || Starts(segs, k) == 0 then l.addrs[k] % ss[k].align == 0
      else l.addrs[k] % c.page == 0
  {
    SectionAt(ss, segs, c, k, |ss|);
    HeaderCount(ss, segs, c, k);
    hide AlignUp, Extended, Opened, Behind, FileSize;
  }

  /** Sections do not overlap, in memory or in the file, and come after the headers. */
  lemma SectionsApart(ss: seq<Sec>, segs: seq<Seg>, c: Config, j: nat, k: nat)
    requires Sound(ss, segs, c) && j < k < |ss|
    ensures var l := Fold(ss, segs, c, |ss|);
      c.header <= l.offs[j] && l.offs[j] + FileSize(ss[j]) <= l.offs[k] &&
      (segs[j].Loaded? ==> c.base + c.header <= l.addrs[j]) &&
      (segs[j].Loaded? && segs[k].Loaded? ==> l.addrs[j] + ss[j].size <= l.addrs[k])
  {
    hide Fold, FileSize, Behind, Sound;
    SectionAt(ss, segs, c, j, |ss|);
    SectionAt(ss, segs, c, k, |ss|);
    FoldOrder(ss, segs, c, 0, j);
    FoldOrder(ss, segs, c, j + 1, k);
    FoldStart(ss, segs, c);
  }

  lemma FoldStart(ss: seq<Sec>, segs: seq<Seg>, c: Config)
    requires Sound(ss, segs, c)
    ensures Fold(ss, segs, c, 0) == Lay(c.base + c.header, c.header, [], [], [])
  {
  }

  lemma FoldOrder(ss: seq<Sec>, segs: seq<Seg>, c: Config, i: nat, j: nat)
    requires Sound(ss, segs, c) && i <= j <= |ss|
    ensures Fold(ss, segs, c, i).addr <= Fold(ss, segs, c, j).addr &&
      Fold(ss, segs, c, i).off <= Fold(ss, segs, c, j).off
  {
    FoldGrows(ss, segs, c, i, j);
  }

  // ---------------------------------------------------------------- headers

  lemma {:induction false} HeaderCount(ss: seq<Sec>, segs: seq<Seg>, c: Config, i: nat)
    requires Sound(ss, segs, c) && i <= |ss|
    ensures |Fold(ss, segs, c, i).phs| == Starts(segs, i)
  {
    hide StepLoaded, StepUnloaded, Behind;
    if i > 0 {
      HeaderCount(ss, segs, c, i - 1);
    }
  }

  /** Loaded sections come first, as their classes are lower. */
  ghost predicate LoadedFirst(segs: seq<Seg>) {
    forall j, k :: 0 <= j < k < |segs| && segs[k].Loaded? ==> segs[j].Loaded?
  }

  /** The state while only loaded sections have been placed: the last segment ends here, and the
      file position has not run ahead of the address. */
  ghost predicate AtEnd(l: Lay, c: Config) {
    l.off + c.base <= l.addr &&
    (|l.phs| > 0 ==> var p := l.phs[|l.phs| - 1];
      p.vaddr + p.memsz == l.addr && p.offset + p.filesz == l.off && p.filesz <= p.memsz)
  }

  /** What one loaded section does to the headers. */
  lemma StepHeaders(l: Lay, s: Sec, f: Flags, starts: bool, c: Config)
    requires s.align > 0 && c.page > 0 && Behind(l, c) && AtEnd(l, c)
    ensures var r := StepLoaded(l, s, f, starts, c);
      AtEnd(r, c) &&
      (forall m :: 0 <= m < (if starts then |l.phs| else |l.phs| - 1) ==> r.phs[m] == l.phs[m]) &&
      (|r.phs| > 0 ==> var p := r.phs[|r.phs| - 1];
        p.vaddr <= r.addrs[|l.addrs|] && p.offset <= r.offs[|l.offs|] &&
        (if starts then p.flags == f && p.vaddr == (if l.phs == [] then c.base else r.addrs[|l.addrs|]) &&
           p.offset == (if l.phs == [] then 0 else r.offs[|l.offs|])
         else var q := l.phs[|l.phs| - 1]; p.flags == q.flags && p.vaddr == q.vaddr && p.offset == q.offset))
  {
    hide AlignUp;
  }

  lemma {:induction false} FoldAtEnd(ss: seq<Sec>, segs: seq<Seg>, c: Config, i: nat)
    requires Sound(ss, segs, c) && i <= |ss| && forall k :: 0 <= k < i ==> segs[k].Loaded?
    ensures AtEnd(Fold(ss, segs, c, i), c)
  {
    hide StepLoaded, Behind;
    if i > 0 {
      FoldAtEnd(ss, segs, c, i - 1);
      StepHeaders(Fold(ss, segs, c, i - 1), ss[i - 1], segs[i - 1].flags, segs[i - 1].starts, c);
    }
  }

  ghost predicate FileFits(l: Lay) {
    forall m :: 0 <= m < |l.phs| ==> l.phs[m].filesz <= l.phs[m].memsz
  }

  /** No segment has more bytes in the file than in memory. */
  lemma {:induction false} FileSizeFits(ss: seq<Sec>, segs: seq<Seg>, c: Config, i: nat)
    requires Sound(ss, segs, c) && LoadedFirst(segs) && i <= |ss|
    ensures FileFits(Fold(ss, segs, c, i))
  {
    hide StepLoaded, StepUnloaded, Behind, AtEnd;
    if i > 0 {
      FileSizeFits(ss, segs, c, i - 1);
      if segs[i - 1].Loaded? {
        var l := Fold(ss, segs, c, i - 1);
        FoldAtEnd(ss, segs, c, i - 1);
        StepHeaders(l, ss[i - 1], segs[i - 1].flags, segs[i - 1].starts, c);
        LastFits(Fold(ss, segs, c, i), c);
      }
    }
  }

  lemma LastFits(l: Lay, c: Config)
    requires AtEnd(l, c)
    ensures |l.phs| > 0 ==> l.phs[|l.phs| - 1].filesz <= l.phs[|l.phs| - 1].memsz
    ensures |l.phs| > 0 ==> l.phs[|l.phs| - 1].vaddr + l.phs[|l.phs| - 1].memsz == l.addr
    ensures |l.phs| > 0 ==> l.phs[|l.phs| - 1].offset + l.phs[|l.phs| - 1].filesz == l.off
  {
  }

  function AlignDown(x: nat, a: nat): nat
    requires a > 0
  {
    x / a * a
  }

  /** The pages of different segments do not meet. */
  ghost predicate PagesApart(l: Lay, page: nat)
    requires page > 0
  {
    (forall m :: 0 <= m < |l.phs| ==> l.phs[m].vaddr + l.phs[m].memsz <= l.addr) &&
    (forall m, n :: 0 <= m < n < |l.phs| ==>
      AlignUp(l.phs[m].vaddr + l.phs[m].memsz, page) <= AlignDown(l.phs[n].vaddr, page))
  }

  lemma {:induction false} SegmentsOnOwnPages(ss: seq<Sec>, segs: seq<Seg>, c: Config, i: nat)
    requires Sound(ss, segs, c) && LoadedFirst(segs) && i <= |ss|
    ensures PagesApart(Fold(ss, segs, c, i), c.page)
  {
    hide StepLoaded, StepUnloaded, Behind, AtEnd, AlignUp, AlignDown, NextAddr;
    if i > 0 {
      SegmentsOnOwnPages(ss, segs, c, i - 1);
      if segs[i - 1].Loaded? {
        FoldAtEnd(ss, segs, c, i - 1);
        StepPages(Fold(ss, segs, c, i - 1), ss[i - 1], segs[i - 1].flags, segs[i - 1].starts, c);
      }
    }
  }

  lemma StepPages(l: Lay, s: Sec, f: Flags, starts: bool, c: Config)
    requires s.align > 0 && c.page > 0 && Behind(l, c) && AtEnd(l, c) && PagesApart(l, c.page)
    ensures PagesApart(StepLoaded(l, s, f, starts, c), c.page)
  {
    hide StepLoaded, Behind, AtEnd, AlignUp, AlignDown, NextAddr;
    var r := StepLoaded(l, s, f, starts, c);
    StepHeaders(l, s, f, starts, c);
    LastFits(r, c);
    if starts && |l.phs| > 0 {
      NewPage(l, s, c);
      PagesBelow(l, c.page, AlignDown(r.addrs[|l.addrs|], c.page));
    }
  }

  lemma PagesBelow(l: Lay, page: nat, limit: nat)
    requires page > 0 && PagesApart(l, page) && AlignUp(l.addr, page) <= limit
    ensures forall m :: 0 <= m < |l.phs| ==> AlignUp(l.phs[m].vaddr + l.phs[m].memsz, page) <= limit
  {
    hide AlignUp, AlignDown;
    forall m | 0 <= m < |l.phs| ensures AlignUp(l.phs[m].vaddr + l.phs[m].memsz, page) <= limit {
      AlignUpMono(l.phs[m].vaddr + l.phs[m].memsz, l.addr, page);
    }
  }

  lemma NewPage(l: Lay, s: Sec, c: Config)
    requires s.align > 0 && c.page > 0 && |l.phs| > 0
    ensures AlignUp(l.addr, c.page) <= AlignDown(NextAddr(l, s, true, c), c.page)
  {
    var a := NextAddr(l, s, true, c);
    UpDown(l.addr, c.page);
    hide AlignUp;
    if c.elf && l.addr % c.page != 0 {
      AlignDownMono(l.addr + c.page, a, c.page);
      DownNext(l.addr, c.page);
    } else if c.elf {
      AlignDownMono(l.addr, a, c.page);
    } else {
      DownExact(a, c.page);
    }
  }

  lemma UpDown(x: nat, a: nat)
    requires a > 0
    ensures AlignUp(x, a) == if x % a == 0 then AlignDown(x, a) else AlignDown(x, a) + a
    ensures x % a == 0 ==> AlignDown(x, a) == x
  {
    var q, r := x / a, x % a;
    assert x == q * a + r;
    if r == 0 {
      DivUnique(x + a - 1, a, q, a - 1);
    } else {
      assert (q + 1) * a == q * a + a;
      DivUnique(x + a - 1, a, q + 1, r - 1);
    }
  }

  lemma AlignDownMono(x: nat, y: nat, a: nat)
    requires a > 0 && x <= y
    ensures AlignDown(x, a) <= AlignDown(y, a)
  {
    QuotientMono(x, y, a);
    MulLe(x / a, y / a, a);
  }

  lemma QuotientMono(x: nat, y: nat, a: nat)
    requires a > 0 && x <= y
    ensures x / a <= y / a
  {
    var p, q := x / a, y / a;
    assert x == p * a + x % a && y == q * a + y % a;
    if q < p {
      MulLe(q + 1, p, a);
    }
  }

  lemma AlignUpMono(x: nat, y: nat, a: nat)
    requires a > 0 && x <= y
    ensures AlignUp(x, a) <= AlignUp(y, a)
  {
    AlignDownMono(x + a - 1, y + a - 1, a);
  }

  lemma DownNext(x: nat, a: nat)
    requires a > 0
    ensures AlignDown(x + a, a) == AlignDown(x, a) + a
  {
    assert x == x / a * a + x % a;
    assert (x / a + 1) * a == x / a * a + a;
    DivUnique(x + a, a, x / a + 1, x % a);
  }

  lemma DownExact(x: nat, a: nat)
    requires a > 0 && x % a == 0
    ensures AlignDown(x, a) == x
  {
  }

  /** The last header has the protection now in force. */
  lemma {:induction false} LastFlags(ss: seq<Sec>, segs: seq<Seg>, c: Config, i: nat)
    requires Sound(ss, segs, c) && i <= |ss| && forall k :: 0 <= k < i ==> segs[k].Loaded?
    ensures var phs := Fold(ss, segs, c, i).phs;
      Current(segs, i) == if |phs| == 0 then None else Some(phs[|phs| - 1].flags)
  {
    hide StepLoaded, Behind, AtEnd;
    if i > 0 {
      LastFlags(ss, segs, c, i - 1);
      FoldAtEnd(ss, segs, c, i - 1);
      StepHeaders(Fold(ss, segs, c, i - 1), ss[i - 1], segs[i - 1].flags, segs[i - 1].starts, c);
    }
  }

  /** Header m exists and section k lies inside its segment, in memory and in the file. */
  ghost predicate Inside(l: Lay, s: Sec, f: Flags, m: nat, k: nat) {
    k < |l.addrs| && k < |l.offs| && m < |l.phs| && var p := l.phs[m];
    p.flags == f && p.vaddr <= l.addrs[k] && l.addrs[k] + s.size <= p.vaddr + p.memsz &&
    p.offset <= l.offs[k] && l.offs[k] + FileSize(s) <= p.offset + p.filesz
  }

  /** A loaded section that is not empty lies inside a segment of exactly its protection. */
  lemma {:induction false} SectionInside(ss: seq<Sec>, segs: seq<Seg>, c: Config, k: nat, i: nat)
    requires Sound(ss, segs, c) && LoadedFirst(segs) && k < i <= |ss|
    requires segs[k].Loaded? && Current(segs, k + 1) == Some(segs[k].flags)
    ensures Starts(segs, k + 1) > 0 && Inside(Fold(ss, segs, c, i), ss[k], segs[k].flags, Starts(segs, k + 1) - 1, k)
    decreases i
  {
    hide StepLoaded, StepUnloaded, Behind, AtEnd, FileSize, Inside;
    if i == k + 1 {
      InsideFirst(ss, segs, c, k);
    } else {
      SectionInside(ss, segs, c, k, i - 1);
      var l, m := Fold(ss, segs, c, i - 1), Starts(segs, k + 1) - 1;
      if segs[i - 1].Loaded? {
        FoldAtEnd(ss, segs, c, i - 1);
        InsideStep(l, ss[i - 1], segs[i - 1].flags, segs[i - 1].starts, c, ss[k], segs[k].flags, m, k);
      } else {
        InsideUnloaded(l, ss[i - 1], ss[k], segs[k].flags, m, k);
      }
    }
  }

  lemma InsideFirst(ss: seq<Sec>, segs: seq<Seg>, c: Config, k: nat)
    requires Sound(ss, segs, c) && LoadedFirst(segs) && k < |ss|
    requires segs[k].Loaded? && Current(segs, k + 1) == Some(segs[k].flags)
    ensures Starts(segs, k + 1) > 0 &&
      Inside(Fold(ss, segs, c, k + 1), ss[k], segs[k].flags, Starts(segs, k + 1) - 1, k)
  {
    hide StepLoaded, Behind, AtEnd, Inside;
    FoldAtEnd(ss, segs, c, k);
    LastFlags(ss, segs, c, k);
    HeaderCount(ss, segs, c, k + 1);
    InsideLast(Fold(ss, segs, c, k), ss[k], segs[k].flags, segs[k].starts, c);
  }

  /** A section just placed lies inside the last segment. */
  lemma InsideLast(l: Lay, s: Sec, f: Flags, starts: bool, c: Config)
    requires s.align > 0 && c.page > 0 && Behind(l, c) && AtEnd(l, c) && |l.addrs| == |l.offs|
    requires starts || (|l.phs| > 0 && l.phs[|l.phs| - 1].flags == f)
    ensures var r := StepLoaded(l, s, f, starts, c);
      |r.phs| > 0 && Inside(r, s, f, |r.phs| - 1, |l.addrs|)
  {
    var r := StepLoaded(l, s, f, starts, c);
    StepHeaders(l, s, f, starts, c);
    LastFits(r, c);
    hide StepLoaded, Behind, AtEnd, FileSize;
  }

  lemma InsideStep(l: Lay, next: Sec, g: Flags, starts: bool, c: Config, s: Sec, f: Flags, m: nat, k: nat)
    requires next.align > 0 && c.page > 0 && Behind(l, c) && AtEnd(l, c) && Inside(l, s, f, m, k)
    ensures Inside(StepLoaded(l, next, g, starts, c), s, f, m, k)
  {
    var r := StepLoaded(l, next, g, starts, c);
    StepHeaders(l, next, g, starts, c);
    LastFits(l, c);
    LastFits(r, c);
    hide StepLoaded, Behind, AtEnd, FileSize;
    assert r.addrs[k] == l.addrs[k] && r.offs[k] == l.offs[k];
  }

  lemma InsideUnloaded(l: Lay, next: Sec, s: Sec, f: Flags, m: nat, k: nat)
    requires next.align > 0 && Inside(l, s, f, m, k)
    ensures Inside(StepUnloaded(l, next), s, f, m, k)
  {
  }

  // ---------------------------------------------------------------- page congruence

  ghost predicate Congruent(addr: nat, off: nat, page: nat)
    requires page > 0
  {
    (addr - off) % page == 0
  }

  lemma PageMore(x: int, page: nat)
    requires page > 0 && x % page == 0
    ensures (x + page) % page == 0
  {
    var q := x / page;
    assert x == q * page;
    assert (q + 1) * page == x + page;
    ExactMod(q + 1, page);
  }

  lemma ExactMod(q: int, a: int)
    requires a > 0
    ensures q * a % a == 0
  {
    var m := q * a;
    var q', r := m / a, m % a;
    assert m == q' * a + r;
    if q' < q {
      MulLe(q' + 1, q, a);
    } else if q < q' {
      MulLe(q + 1, q', a);
    }
  }

  /** No segment starts after a section that takes memory but no space in the file. */
  ghost predicate NoneAfterBss(ss: seq<Sec>, segs: seq<Seg>) {
    |segs| == |ss| && forall j, k :: 0 <= j < k < |ss| && segs[j].Loaded? && segs[k].Loaded? && segs[k].starts ==>
      FileSize(ss[j]) == ss[j].size
  }

  ghost predicate HeadersCongruent(l: Lay, page: nat)
    requires page > 0
  {
    forall m :: 0 <= m < |l.phs| ==> Congruent(l.phs[m].vaddr, l.phs[m].offset, page)
  }

  lemma StepCongruent(l: Lay, s: Sec, f: Flags, starts: bool, c: Config)
    requires s.align > 0 && c.page > 0 && Behind(l, c) && AtEnd(l, c) && |l.addrs| == |l.offs|
    requires Congruent(l.addr, l.off, c.page) && Congruent(c.base, 0, c.page) && HeadersCongruent(l, c.page)
    ensures var r := StepLoaded(l, s, f, starts, c);
      HeadersCongruent(r, c.page) && (FileSize(s) == s.size ==> Congruent(r.addr, r.off, c.page))
  {
    var r := StepLoaded(l, s, f, starts, c);
    hide AlignUp, Behind, AtEnd;
    PageMore(l.addr - l.off, c.page);
    var n := |l.addrs|;
    assert Congruent(r.addrs[n], r.offs[n], c.page) by {
      assert r.addrs[n] - r.offs[n] == l.addr - l.off || r.addrs[n] - r.offs[n] == l.addr - l.off + c.page;
    }
    assert r.addr - r.off == r.addrs[n] - r.offs[n] + s.size - FileSize(s);
    StepHeaders(l, s, f, starts, c);
    hide StepLoaded, Congruent;
  }

  /** A section that opens no segment leaves where the segments begin. */
  lemma StepKeeps(l: Lay, s: Sec, f: Flags, c: Config)
    requires s.align > 0 && c.page > 0 && Behind(l, c) && AtEnd(l, c) && HeadersCongruent(l, c.page)
    ensures HeadersCongruent(StepLoaded(l, s, f, false, c), c.page)
  {
    StepHeaders(l, s, f, false, c);
    hide StepLoaded, Behind, AtEnd, Congruent;
  }

  ghost predicate NoBss(ss: seq<Sec>, i: nat)
    requires i <= |ss|
  {
    forall j :: 0 <= j < i ==> FileSize(ss[j]) == ss[j].size
  }

  /** A segment's address and file offset agree within a page, so it can be mapped, when the base is
      page-aligned and no segment starts after a bss section. */
  lemma {:induction false} SegmentsMappable(ss: seq<Sec>, segs: seq<Seg>, c: Config, i: nat)
    requires Sound(ss, segs, c) && LoadedFirst(segs) && NoneAfterBss(ss, segs) && c.base % c.page == 0 && i <= |ss|
    ensures HeadersCongruent(Fold(ss, segs, c, i), c.page)
    ensures (forall j :: 0 <= j < i ==> segs[j].Loaded?) && NoBss(ss, i) ==>
      Congruent(Fold(ss, segs, c, i).addr, Fold(ss, segs, c, i).off, c.page)
  {
    hide StepLoaded, StepUnloaded, Behind, AtEnd, HeadersCongruent, FileSize;
    if i > 0 {
      SegmentsMappable(ss, segs, c, i - 1);
      var l := Fold(ss, segs, c, i - 1);
      if segs[i - 1].Loaded? {
        FoldAtEnd(ss, segs, c, i - 1);
        if segs[i - 1].starts || NoBss(ss, i) {
          StepCongruent(l, ss[i - 1], segs[i - 1].flags, segs[i - 1].starts, c);
        } else {
          StepKeeps(l, ss[i - 1], segs[i - 1].flags, c);
        }
      } else {
        SameHeaders(l, Fold(ss, segs, c, i), c.page);
      }
    } else {
      NoHeaders(Fold(ss, segs, c, 0), c.page);
    }
  }

  lemma SameHeaders(l: Lay, r: Lay, page: nat)
    requires page > 0 && HeadersCongruent(l, page) && r.phs == l.phs
    ensures HeadersCongruent(r, page)
  {
  }

  lemma NoHeaders(l: Lay, page: nat)
    requires page > 0 && l.phs == []
    ensures HeadersCongruent(l, page)
  {
  }

  // ---------------------------------------------------------------- what is mapped where

  /** The next address is as far from the start of its segment as the file position is; before the
      first segment, from the base. */
  ghost predicate InStep(l: Lay, c: Config) {
    if l.phs == [] then l.addr - l.off == c.base
    else var p := l.phs[|l.phs| - 1]; l.addr - p.vaddr == l.off - p.offset
  }

  /** A further segment was started after each section before i that has more memory than file. */
  ghost predicate BssBehind(ss: seq<Sec>, segs: seq<Seg>, i: nat)
    requires i <= |ss| == |segs|
  {
    forall j :: 0 <= j < i && FileSize(ss[j]) != ss[j].size ==> Starts(segs, i) > Starts(segs, j + 1)
  }

  /** Sections before the first segment are empty. */
  ghost predicate AllInSegments(ss: seq<Sec>, segs: seq<Seg>) {
    |ss| == |segs| && forall j :: 0 <= j < |ss| && segs[j].Loaded? && ss[j].size > 0 ==> Starts(segs, j + 1) > 0
  }

  lemma StepInStep(l: Lay, s: Sec, f: Flags, starts: bool, c: Config)
    requires s.align > 0 && c.page > 0 && Behind(l, c) && AtEnd(l, c) && |l.addrs| == |l.offs|
    requires InStep(l, c) || (starts && l.phs != [])
    ensures var r := StepLoaded(l, s, f, starts, c);
      (FileSize(s) == s.size ==> InStep(r, c)) &&
      (r.phs != [] ==>
        var p := r.phs[|r.phs| - 1]; r.addrs[|l.addrs|] - p.vaddr == r.offs[|l.offs|] - p.offset)
  {
    var r := StepLoaded(l, s, f, starts, c);
    StepHeaders(l, s, f, starts, c);
    hide AlignUp, Behind, AtEnd, Extended;
    if !(starts && l.phs != []) {
      assert r.addrs[|l.addrs|] - l.addr == r.offs[|l.offs|] - l.off;
    }
    assert r.addr - r.off == r.addrs[|l.addrs|] - r.offs[|l.offs|] + s.size - FileSize(s);
    hide StepLoaded, FileSize;
  }

  lemma StartsBefore(ss: seq<Sec>, segs: seq<Seg>, i: nat)
    requires AllInSegments(ss, segs) && i < |ss| && (forall j :: 0 <= j <= i ==> segs[j].Loaded?)
    requires BssBehind(ss, segs, i + 1) && (!segs[i].starts || Starts(segs, i) == 0)
    ensures BssBehind(ss, segs, i)
  {
    forall j | 0 <= j < i && FileSize(ss[j]) != ss[j].size ensures Starts(segs, i) > Starts(segs, j + 1) {
      assert Starts(segs, j + 1) > 0;
      StartsUpTo(segs, j + 1, i);
    }
  }

  lemma {:induction false} StartsUpTo(segs: seq<Seg>, i: nat, j: nat)
    requires i <= j <= |segs|
    ensures Starts(segs, i) <= Starts(segs, j)
    decreases j
  {
    if i < j {
      StartsUpTo(segs, i, j - 1);
    }
  }

  lemma {:induction false} FoldInStep(ss: seq<Sec>, segs: seq<Seg>, c: Config, i: nat)
    requires Sound(ss, segs, c) && AllInSegments(ss, segs) && i <= |ss| && forall k :: 0 <= k < i ==> segs[k].Loaded?
    requires BssBehind(ss, segs, i)
    ensures InStep(Fold(ss, segs, c, i), c)
  {
    hide StepLoaded, Behind, AtEnd, InStep, FileSize;
    if i == 0 {
      StepStart(ss, segs, c);
    } else {
      var l := Fold(ss, segs, c, i - 1);
      FoldAtEnd(ss, segs, c, i - 1);
      HeaderCount(ss, segs, c, i - 1);
      if !segs[i - 1].starts || Starts(segs, i - 1) == 0 {
        StartsBefore(ss, segs, i - 1);
        FoldInStep(ss, segs, c, i - 1);
      }
      StepInStep(l, ss[i - 1], segs[i - 1].flags, segs[i - 1].starts, c);
      assert FileSize(ss[i - 1]) == ss[i - 1].size;
    }
  }

  lemma StepStart(ss: seq<Sec>, segs: seq<Seg>, c: Config)
    requires Sound(ss, segs, c)
    ensures InStep(Fold(ss, segs, c, 0), c)
  {
  }

  /** The bytes of section k in the file are mapped to its address by header m. */
  ghost predicate Mapped(l: Lay, m: nat, k: nat) {
    k < |l.addrs| && k < |l.offs| && m < |l.phs| && l.addrs[k] - l.phs[m].vaddr == l.offs[k] - l.phs[m].offset
  }

  /** The segment of a section maps its bytes to its address, unless a section that has more memory
      than file stands before it in the same segment. */
  lemma {:induction false} SectionMapped(ss: seq<Sec>, segs: seq<Seg>, c: Config, k: nat, i: nat)
    requires Sound(ss, segs, c) && LoadedFirst(segs) && AllInSegments(ss, segs) && k < i <= |ss| && segs[k].Loaded?
    requires forall j :: 0 <= j < k && FileSize(ss[j]) != ss[j].size ==> Starts(segs, k + 1) > Starts(segs, j + 1)
    requires Starts(segs, k + 1) > 0
    ensures Mapped(Fold(ss, segs, c, i), Starts(segs, k + 1) - 1, k)
    decreases i
  {
    hide StepLoaded, StepUnloaded, Behind, AtEnd, InStep, FileSize;
    var l, m := Fold(ss, segs, c, i - 1), Starts(segs, k + 1) - 1;
    if i == k + 1 {
      MappedFirst(ss, segs, c, k);
    } else {
      SectionMapped(ss, segs, c, k, i - 1);
      if segs[i - 1].Loaded? {
        FoldAtEnd(ss, segs, c, i - 1);
        MappedStep(l, ss[i - 1], segs[i - 1].flags, segs[i - 1].starts, c, m, k);
      } else {
        MappedUnloaded(l, ss[i - 1], m, k);
      }
    }
  }

  lemma MappedFirst(ss: seq<Sec>, segs: seq<Seg>, c: Config, k: nat)
    requires Sound(ss, segs, c) && LoadedFirst(segs) && AllInSegments(ss, segs) && k < |ss| && segs[k].Loaded?
    requires forall j :: 0 <= j < k && FileSize(ss[j]) != ss[j].size ==> Starts(segs, k + 1) > Starts(segs, j + 1)
    requires Starts(segs, k + 1) > 0
    ensures Mapped(Fold(ss, segs, c, k + 1), Starts(segs, k + 1) - 1, k)
  {
    hide StepLoaded, Behind, AtEnd, InStep, FileSize;
    var l := Fold(ss, segs, c, k);
    FoldAtEnd(ss, segs, c, k);
    HeaderCount(ss, segs, c, k);
    HeaderCount(ss, segs, c, k + 1);
    if !segs[k].starts || Starts(segs, k) == 0 {
      forall j | 0 <= j < k && FileSize(ss[j]) != ss[j].size ensures Starts(segs, k) > Starts(segs, j + 1) {
        MoreThanFile(ss[j]);
        assert Starts(segs, j + 1) > 0;
        StartsUpTo(segs, j + 1, k);
      }
      FoldInStep(ss, segs, c, k);
    }
    StepInStep(l, ss[k], segs[k].flags, segs[k].starts, c);
  }

  lemma MoreThanFile(s: Sec)
    requires FileSize(s) != s.size
    ensures s.size > 0 && s.kind == Nobits
  {
  }

  lemma MappedStep(l: Lay, s: Sec, f: Flags, starts: bool, c: Config, m: nat, k: nat)
    requires s.align > 0 && c.page > 0 && Behind(l, c) && AtEnd(l, c) && Mapped(l, m, k)
    ensures Mapped(StepLoaded(l, s, f, starts, c), m, k)
  {
    var r := StepLoaded(l, s, f, starts, c);
    StepHeaders(l, s, f, starts, c);
    hide StepLoaded, Behind, AtEnd;
    assert r.addrs[k] == l.addrs[k] && r.offs[k] == l.offs[k];
  }

  lemma MappedUnloaded(l: Lay, s: Sec, m: nat, k: nat)
    requires s.align > 0 && Mapped(l, m, k)
    ensures Mapped(StepUnloaded(l, s), m, k)
  {
  }

  // ---------------------------------------------------------------- alignment of segments

  lemma StepAligns(l: Lay, s: Sec, f: Flags, starts: bool, c: Config)
    requires s.align > 0 && c.page > 0 && Behind(l, c)
    ensures var r := StepLoaded(l, s, f, starts, c);
      |r.phs| >= |l.phs| && (forall m :: 0 <= m < |l.phs| ==> r.phs[m].align == l.phs[m].align) &&
      (starts ==> |r.phs| == |l.phs| + 1) &&
      (starts ==> r.phs[|l.phs|].align == if f.tls && (c.elf || l.phs == []) then s.align else c.page)
  {
    hide AlignUp;
  }

  /** A segment is aligned to a page, or a thread-local one to its first section; in a flat binary only
      if it is the first. */
  lemma {:induction false} SegmentAlign(ss: seq<Sec>, segs: seq<Seg>, c: Config, k: nat, i: nat)
    requires Sound(ss, segs, c) && k < i <= |ss| && segs[k].Loaded? && segs[k].starts
    ensures var phs, m := Fold(ss, segs, c, i).phs, Starts(segs, k);
      m < |phs| &&
      phs[m].align == if segs[k].flags.tls && (c.elf || Starts(segs, k) == 0) then ss[k].align else c.page
    decreases i
  {
    hide StepLoaded, StepUnloaded, Behind;
    HeaderCount(ss, segs, c, k);
    var l := Fold(ss, segs, c, i - 1);
    if i > k + 1 {
      SegmentAlign(ss, segs, c, k, i - 1);
    }
    if segs[i - 1].Loaded? {
      StepAligns(l, ss[i - 1], segs[i - 1].flags, segs[i - 1].starts, c);
    }
  }
}
