/** The ELF file writer and the offsets of object files (tccelf.c): every section's bytes end up at
    its sh_offset. */
module FileWriter {
  import opened Bytes
  import opened Permutations
  import opened SectionOrder
  import opened Layout
  import opened LayoutRun
  import SectionRenumber

  /** A section as the writer sees it. */
  datatype OutSec = OutSec(nobits: bool, offset: nat, size: nat, data: seq<byte>)

  /** Offsets begin after the headers and leave room for the bytes of every earlier section. */
  ghost predicate Fits(secs: seq<OutSec>, header: nat) {
    (forall i :: 0 <= i < |secs| && !secs[i].nobits ==> header <= secs[i].offset && secs[i].size <= |secs[i].data|) &&
    (forall i, j :: 0 <= i < j < |secs| && !secs[i].nobits && !secs[j].nobits ==>
      secs[i].offset + secs[i].size <= secs[j].offset)
  }

  /** The bytes of section s stand at its offset. */
  ghost predicate At(file: seq<byte>, s: OutSec) {
    s.offset + s.size <= |file| && s.size <= |s.data| && file[s.offset..s.offset + s.size] == s.data[..s.size]
  }

  /** Byte x of the file belongs to one of the first k sections. */
  ghost predicate InSome(secs: seq<OutSec>, k: nat, x: nat)
    requires k <= |secs|
  {
    exists i :: 0 <= i < k && !secs[i].nobits && secs[i].offset <= x < secs[i].offset + secs[i].size
  }

  /** The first k sections are in place and everything else after the headers is zero. */
  ghost predicate Written(file: seq<byte>, head: seq<byte>, secs: seq<OutSec>, k: nat) {
    k <= |secs| && head <= file &&
    (forall i :: 0 <= i < k && !secs[i].nobits ==> At(file, secs[i])) &&
    (forall x :: |head| <= x < |file| && !InSome(secs, k, x) ==> file[x] == 0) &&
    (forall i :: k <= i < |secs| && !secs[i].nobits ==> |file| <= secs[i].offset)
  }

  /** The last loop of tcc_output_elf: padding up to each section, then its bytes. */
  method OutputSections(head: seq<byte>, secs: seq<OutSec>) returns (file: seq<byte>)
    requires Fits(secs, |head|)
    ensures Written(file, head, secs, |secs|)
  {
    file := head;
    for i := 0 to |secs|
      invariant Written(file, head, secs, i)
    {
      if !secs[i].nobits {
        ghost var before := file;
        var offset := |file|;
        while offset < secs[i].offset
          invariant offset == |file| && before <= file && |before| <= |file| <= secs[i].offset
          invariant forall x :: |before| <= x < |file| ==> file[x] == 0
        {
          file := file + [0];
          offset := offset + 1;
        }
        file := file + secs[i].data[..secs[i].size];
        WrittenNext(before, file, head, secs, i);
      } else {
        WrittenSkip(file, head, secs, i);
      }
    }
  }

  lemma WrittenSkip(file: seq<byte>, head: seq<byte>, secs: seq<OutSec>, i: nat)
    requires Written(file, head, secs, i) && i < |secs| && secs[i].nobits
    ensures Written(file, head, secs, i + 1)
  {
  }

  lemma WrittenNext(before: seq<byte>, file: seq<byte>, head: seq<byte>, secs: seq<OutSec>, i: nat)
    requires Written(before, head, secs, i) && i < |secs| && !secs[i].nobits && Fits(secs, |head|)
    requires |before| <= secs[i].offset && |file| == secs[i].offset + secs[i].size && before <= file
    requires forall x :: |before| <= x < secs[i].offset ==> file[x] == 0
    requires file[secs[i].offset..] == secs[i].data[..secs[i].size]
    ensures Written(file, head, secs, i + 1)
  {
    forall j | 0 <= j < i + 1 && !secs[j].nobits ensures At(file, secs[j]) {
      if j < i {
        var p, q := secs[j].offset, secs[j].offset + secs[j].size;
        assert file[p..q] == before[p..q];
      }
    }
    hide At;
    ZerosBetween(before, file, head, secs, i);
    hide InSome;
  }

  lemma ZerosBetween(before: seq<byte>, file: seq<byte>, head: seq<byte>, secs: seq<OutSec>, i: nat)
    requires Written(before, head, secs, i) && i < |secs| && !secs[i].nobits
    requires |before| <= secs[i].offset && |file| == secs[i].offset + secs[i].size && before <= file
    requires forall x :: |before| <= x < secs[i].offset ==> file[x] == 0
    ensures forall x :: |head| <= x < |file| && !InSome(secs, i + 1, x) ==> file[x] == 0
  {
    hide At;
    forall x | |head| <= x < |file| && !InSome(secs, i + 1, x) ensures file[x] == 0 {
      assert !InSome(secs, i, x) && x < secs[i].offset;
    }
  }

  /** tcc_output_elf. The header bytes themselves are given; the section headers stand at e_shoff. */
  method OutputElf(ehdr: seq<byte>, phdrs: seq<byte>, phnum: nat, shdrs: seq<seq<byte>>, secs: seq<OutSec>)
    returns (file: seq<byte>)
    requires |ehdr| == EHDR_SIZE && |phdrs| == phnum * PHDR_SIZE
    requires forall i :: 0 <= i < |shdrs| ==> |shdrs[i]| == SHDR_SIZE
    requires Fits(secs, HeaderSize(phnum, |shdrs|))
    ensures forall i :: 0 <= i < |secs| && !secs[i].nobits ==> At(file, secs[i])
    ensures ehdr + phdrs <= file && HeaderSize(phnum, |shdrs|) <= |file|
    ensures forall i :: 0 <= i < |shdrs| ==> HeaderAt(file, ShOff(phnum), shdrs, i)
    ensures forall x :: HeaderSize(phnum, |shdrs|) <= x < |file| && !InSome(secs, |secs|, x) ==> file[x] == 0
  {
    file := ehdr + phdrs;
    var offset := |file|;
    while offset < ShOff(phnum)
      invariant offset == |file| <= ShOff(phnum) && ehdr + phdrs <= file
    {
      file := file + [0];
      offset := offset + 1;
    }
    ghost var base := ShOff(phnum);
    for i := 0 to |shdrs|
      invariant |file| == base + i * SHDR_SIZE && ehdr + phdrs <= file
      invariant forall j :: 0 <= j < i ==> HeaderAt(file, base, shdrs, j)
    {
      ghost var before := file;
      file := file + shdrs[i];
      forall j | 0 <= j < i + 1 ensures HeaderAt(file, base, shdrs, j) {
        HeaderStays(before, file, base, shdrs, j, i);
      }
    }
    ghost var head := file;
    file := OutputSections(file, secs);
    forall i | 0 <= i < |shdrs| ensures HeaderAt(file, base, shdrs, i) {
      HeaderPrefix(head, file, base, shdrs, i);
    }
  }

  /** Section header j stands in the table at base. */
  ghost predicate HeaderAt(file: seq<byte>, base: nat, shdrs: seq<seq<byte>>, j: nat)
    requires j < |shdrs|
  {
    var p := base + j * SHDR_SIZE;
    p + SHDR_SIZE <= |file| && file[p..p + SHDR_SIZE] == shdrs[j]
  }

  lemma HeaderPrefix(before: seq<byte>, file: seq<byte>, base: nat, shdrs: seq<seq<byte>>, j: nat)
    requires j < |shdrs| && before <= file && HeaderAt(before, base, shdrs, j)
    ensures HeaderAt(file, base, shdrs, j)
  {
    var p := base + j * SHDR_SIZE;
    assert file[p..p + SHDR_SIZE] == before[p..p + SHDR_SIZE];
  }

  lemma HeaderStays(before: seq<byte>, file: seq<byte>, base: nat, shdrs: seq<seq<byte>>, j: nat, i: nat)
    requires j <= i < |shdrs| && |shdrs[i]| == SHDR_SIZE && |before| == base + i * SHDR_SIZE &&
      file == before + shdrs[i]
    requires j < i ==> HeaderAt(before, base, shdrs, j)
    ensures HeaderAt(file, base, shdrs, j)
  {
    if j < i {
      HeaderPrefix(before, file, base, shdrs, j);
    }
  }

  lemma RoundUp16(x: nat)
    ensures var r := (x + 15) / 16 * 16; x <= r <= x + 15 && r % 16 == 0
  {
  }

  /** elf_output_obj: sixteen-byte aligned sections one after the other. */
  method ObjectOffsets(sizes: seq<nat>, nobits: seq<bool>) returns (offsets: seq<nat>)
    requires |sizes| == |nobits|
    ensures |offsets| == |sizes|
    ensures forall i :: 0 <= i < |sizes| ==> offsets[i] % 16 == 0 && HeaderSize(0, |sizes| + 1) <= offsets[i]
    ensures forall i, j :: 0 <= i < j < |sizes| ==> offsets[i] + (if nobits[i] then 0 else sizes[i]) <= offsets[j]
  {
    offsets := [];
    var fileOffset := (EHDR_SIZE + 3) / 4 * 4 + (|sizes| + 1) * SHDR_SIZE;
    for i := 0 to |sizes|
      invariant |offsets| == i && HeaderSize(0, |sizes| + 1) <= fileOffset
      invariant forall j :: 0 <= j < i ==> offsets[j] % 16 == 0 && HeaderSize(0, |sizes| + 1) <= offsets[j]
      invariant forall j :: 0 <= j < i ==> offsets[j] + (if nobits[j] then 0 else sizes[j]) <= fileOffset
      invariant forall j, k :: 0 <= j < k < i ==> offsets[j] + (if nobits[j] then 0 else sizes[j]) <= offsets[k]
    {
      RoundUp16(fileOffset);
      fileOffset := (fileOffset + 15) / 16 * 16;
      offsets := offsets + [fileOffset];
      if !nobits[i] {
        fileOffset := fileOffset + sizes[i];
      }
    }
  }

  /** The sections of an executable, with the offsets of the layout. */
  ghost function Laid(ss: seq<Sec>, l: Lay, datas: seq<seq<byte>>, n: nat): (secs: seq<OutSec>)
    requires n <= |ss| == |datas| && |l.offs| == |ss|
    ensures |secs| == n
  {
    seq(n, i requires 0 <= i < n => OutSec(ss[i].kind == Nobits, l.offs[i], ss[i].size, datas[i]))
  }

  /** The header table the layout reserves is the one the writer fills, and the writer meets the
      layout's offsets, for the sections that have a name: they are the first of the order. */
  lemma LayoutFits(ss: seq<Sec>, segs: seq<Seg>, c: Config, datas: seq<seq<byte>>, n: nat, phnum: nat)
    requires Sound(ss, segs, c) && n <= |ss| == |datas| && c.header == HeaderSize(phnum, n + 1)
    requires forall i :: 0 <= i < n && ss[i].kind != Nobits ==> ss[i].size <= |datas[i]|
    ensures Fits(Laid(ss, Fold(ss, segs, c, |ss|), datas, n), HeaderSize(phnum, n + 1))
  {
    hide Fold, AlignUp, HeaderSize;
    var l := Fold(ss, segs, c, |ss|);
    forall i, j | 0 <= i < j < n ensures l.offs[i] + FileSize(ss[i]) <= l.offs[j] {
      SectionsApart(ss, segs, c, i, j);
    }
    forall i | 0 <= i < n ensures c.header <= l.offs[i] {
      AfterHeader(ss, segs, c, i);
    }
  }

  /** The sections with a name are exactly the first shnum - 1 of the order. */
  lemma {:induction false} NamedFirst(secs: seq<Sec>, order: seq<nat>, ss: seq<Sec>, ks: seq<nat>, i: nat)
    requires Ordered(secs, true, order, ss, ks) && i <= |ks|
    ensures forall p :: 0 <= p < i ==> (ss[p].named <==> p < Listed(ks, i))
    ensures Listed(ks, i) <= i
  {
    hide Contents, Protection;
    if i > 0 {
      NamedFirst(secs, order, ss, ks, i - 1);
      assert Placed(secs, true, order, ss, ks, i - 1);
      assert ks[i - 1] < UNLISTED <==> ss[i - 1].named;
      if i > 1 {
        assert Placed(secs, true, order, ss, ks, i - 2);
        assert ks[i - 2] < UNLISTED <==> ss[i - 2].named;
      }
    }
  }

  // ---------------------------------------------------------------- from the sections to the file

  ghost function NamedOf(secs: seq<Sec>): (r: seq<bool>)
    ensures |r| == |secs| && forall k :: 0 <= k < |secs| ==> r[k] == secs[k].named
  {
    seq(|secs|, k requires 0 <= k < |secs| => secs[k].named)
  }

  lemma OrderedPermutes(secs: seq<Sec>, order: seq<nat>, ss: seq<Sec>, ks: seq<nat>)
    requires Ordered(secs, true, order, ss, ks) && order[0] == 0
    ensures SectionRenumber.Permutation(order, |secs|)
  {
    forall p | 1 <= p < |order| ensures 1 <= order[p] < |secs| {
      assert Placed(secs, true, order, ss, ks, p - 1);
    }
  }

  /** What a section of the order has in common with the section it was. */
  lemma PlacedSame(secs: seq<Sec>, order: seq<nat>, ss: seq<Sec>, ks: seq<nat>, p: nat)
    requires Ordered(secs, true, order, ss, ks) && p < |ss|
    ensures 1 <= order[p + 1] < |secs| && (ks[p] < UNLISTED <==> ss[p].named)
    ensures var s, was := ss[p], secs[order[p + 1]]; s.named == was.named && s.kind == was.kind && s.size == was.size
  {
    assert Placed(secs, true, order, ss, ks, p);
    hide Class, Contents, Protection;
  }

  /** The new list is the first part of the order. */
  lemma {:induction false} KeptArePrefix(secs: seq<Sec>, order: seq<nat>, ss: seq<Sec>, ks: seq<nat>, i: nat)
    requires Ordered(secs, true, order, ss, ks) && order[0] == 0 && SectionRenumber.Permutation(order, |secs|)
    requires i <= |ks|
    ensures Listed(ks, i) <= i && SectionRenumber.KeptOf(order, NamedOf(secs), i + 1) == order[..1 + Listed(ks, i)]
  {
    hide Class, Adjusted, Ordered, Placed;
    SectionLengths(secs, order, ss, ks);
    if i == 0 {
      assert SectionRenumber.KeptOf(order, NamedOf(secs), 0) == [];
      assert order[..1] == [order[0]];
    } else {
      KeptArePrefix(secs, order, ss, ks, i - 1);
      NamedFirst(secs, order, ss, ks, i);
      PlacedSame(secs, order, ss, ks, i - 1);
      if ss[i - 1].named {
        assert Listed(ks, i) == i;
        assert order[..i + 1] == order[..i] + [order[i]];
      }
    }
  }

  lemma SectionLengths(secs: seq<Sec>, order: seq<nat>, ss: seq<Sec>, ks: seq<nat>)
    requires Ordered(secs, true, order, ss, ks)
    ensures |order| == |secs| == |ss| + 1 == |ks| + 1
  {
  }

  /** The program headers as bytes. */
  method EncodeHeaders(phdr: array<Phdr>, encode: Phdr -> seq<byte>) returns (bytes: seq<byte>)
    requires forall ph: Phdr :: |encode(ph)| == PHDR_SIZE
    ensures |bytes| == phdr.Length * PHDR_SIZE
    ensures forall m :: 0 <= m < phdr.Length ==> HeaderCode(bytes, m, encode(phdr[m]))
  {
    bytes := [];
    for m := 0 to phdr.Length
      invariant |bytes| == m * PHDR_SIZE && forall j :: 0 <= j < m ==> HeaderCode(bytes, j, encode(phdr[j]))
    {
      ghost var was := bytes;
      bytes := bytes + encode(phdr[m]);
      forall j | 0 <= j < m + 1 ensures HeaderCode(bytes, j, encode(phdr[j])) {
        CodeStays(was, encode(phdr[m]), j, m, encode(phdr[j]));
      }
    }
  }

  ghost predicate HeaderCode(bytes: seq<byte>, m: nat, code: seq<byte>) {
    (m + 1) * PHDR_SIZE <= |bytes| && bytes[m * PHDR_SIZE..(m + 1) * PHDR_SIZE] == code
  }

  lemma CodeStays(was: seq<byte>, code: seq<byte>, j: nat, m: nat, wanted: seq<byte>)
    requires j <= m && |was| == m * PHDR_SIZE && |code| == PHDR_SIZE
    requires if j < m then HeaderCode(was, j, wanted) else wanted == code
    ensures HeaderCode(was + code, j, wanted)
  {
    if j < m {
      assert (was + code)[j * PHDR_SIZE..(j + 1) * PHDR_SIZE] == was[j * PHDR_SIZE..(j + 1) * PHDR_SIZE];
    }
  }

  /** A section number's place in the order gives it its address and offset. */
  method StoreOffsets(order: seq<nat>, shOffset: array<nat>) returns (offsets: seq<nat>)
    requires |order| == shOffset.Length + 1 && SectionRenumber.Permutation(order, |order|)
    ensures |offsets| == |order| && forall p :: 1 <= p < |order| ==> offsets[order[p]] == shOffset[p - 1]
  {
    offsets := seq(|order|, _ => 0);
    for p := 1 to |order|
      invariant |offsets| == |order| && forall q :: 1 <= q < p ==> offsets[order[q]] == shOffset[q - 1]
    {
      offsets := offsets[order[p] := shOffset[p - 1]];
    }
  }

  /** The sections in their new order, as the writer takes them. */
  method Outputs(secs: seq<Sec>, datas: seq<seq<byte>>, offsets: seq<nat>, snew: seq<nat>) returns (outs: seq<OutSec>)
    requires |datas| == |offsets| == |secs| && |snew| > 0 && forall p :: 0 <= p < |snew| ==> snew[p] < |secs|
    ensures |outs| == |snew| - 1 && forall p :: 1 <= p < |snew| ==> outs[p - 1] == OutOf(secs, datas, offsets, snew[p])
  {
    outs := [];
    for p := 1 to |snew|
      invariant |outs| == p - 1 && forall q :: 1 <= q < p ==> outs[q - 1] == OutOf(secs, datas, offsets, snew[q])
    {
      outs := outs + [OutOf(secs, datas, offsets, snew[p])];
    }
  }

  function OutOf(secs: seq<Sec>, datas: seq<seq<byte>>, offsets: seq<nat>, k: nat): OutSec
    requires |datas| == |offsets| == |secs| && k < |secs|
  {
    OutSec(secs[k].kind == Nobits, offsets[k], secs[k].size, datas[k])
  }

  /** The layout's offsets, carried by the sections through the new order, fit the writer. */
  lemma OutputsFit(secs: seq<Sec>, datas: seq<seq<byte>>, order: seq<nat>, ss: seq<Sec>, ks: seq<nat>, segs: seq<Seg>,
                   c: Config, phnum: nat, offsets: seq<nat>, outs: seq<OutSec>)
    requires Ordered(secs, true, order, ss, ks) && SectionRenumber.Permutation(order, |secs|) && Sound(ss, segs, c)
    requires Listed(ks, |ks|) <= |ss| && c.header == HeaderSize(phnum, 1 + Listed(ks, |ks|))
    requires |datas| == |offsets| == |secs| && |outs| == Listed(ks, |ks|)
    requires forall k :: 1 <= k < |secs| && secs[k].kind != Nobits ==> secs[k].size <= |datas[k]|
    requires forall p :: 1 <= p < |order| ==> offsets[order[p]] == Fold(ss, segs, c, |ss|).offs[p - 1]
    requires forall p :: 1 <= p <= |outs| ==> outs[p - 1] == OutOf(secs, datas, offsets, order[p])
    ensures Fits(outs, HeaderSize(phnum, 1 + Listed(ks, |ks|)))
  {
    hide Fold, Fits, HeaderSize, Ordered, Listed;
    SectionLengths(secs, order, ss, ks);
    var l, n := Fold(ss, segs, c, |ss|), |outs|;
    var moved := seq(|ss|, p requires 0 <= p < |ss| => datas[order[p + 1]]);
    forall p | 0 <= p < n
      ensures outs[p] == Laid(ss, l, moved, n)[p] && (ss[p].kind != Nobits ==> ss[p].size <= |moved[p]|)
    {
      PlacedSame(secs, order, ss, ks, p);
      var q := p + 1;
      assert outs[q - 1] == OutOf(secs, datas, offsets, order[q]);
    }
    LayoutFits(ss, segs, c, moved, n, phnum);
    assert outs == Laid(ss, l, moved, n);
  }

  /** elf_output_file for a static executable, from the sorted sections on: the layout, the new
      order and the writer together put the bytes of every named section at its sh_offset. */
  method WriteExecutable(secs: seq<Sec>, datas: seq<seq<byte>>, order: seq<nat>, ss: seq<Sec>, ks: seq<nat>,
                         segs: seq<Seg>, c: Config, phdr: array<Phdr>, phfill: nat, ehdr: seq<byte>,
                         encode: Phdr -> seq<byte>, shdrs: seq<seq<byte>>)
    returns (file: seq<byte>, offsets: seq<nat>)
    requires Ordered(secs, true, order, ss, ks) && order[0] == 0 && segs == MarkTo(ss, ks, |ss|).segs
    requires NoOverflow(ss, segs, c) && phfill + Starts(segs, |ss|) <= phdr.Length
    requires c.header == HeaderSize(phdr.Length, 1 + Listed(ks, |ks|)) && |shdrs| == 1 + Listed(ks, |ks|)
    requires |ehdr| == EHDR_SIZE && forall i :: 0 <= i < |shdrs| ==> |shdrs[i]| == SHDR_SIZE
    requires forall ph: Phdr :: |encode(ph)| == PHDR_SIZE
    requires |datas| == |secs| && forall k :: 1 <= k < |secs| && secs[k].kind != Nobits ==> secs[k].size <= |datas[k]|
    modifies phdr
    ensures |offsets| == |secs|
    ensures forall p :: 1 <= p < |order| ==>
      order[p] < |secs| && offsets[order[p]] == Fold(ss, segs, c, |ss|).offs[p - 1]
    ensures forall k :: 1 <= k < |secs| && secs[k].named && secs[k].kind != Nobits ==>
      At(file, OutOf(secs, datas, offsets, k))
    ensures forall i :: 0 <= i < |shdrs| ==> HeaderAt(file, ShOff(phdr.Length), shdrs, i)
    ensures phdr[phfill..phfill + Starts(segs, |ss|)] == Fold(ss, segs, c, |ss|).phs
    ensures forall m :: 0 <= m < phdr.Length ==> PhdrAt(file, m, encode(phdr[m]))
  {
    hide Fold, Fits, HeaderSize, Ordered, Listed, At, InSome;
    hide MarkTo, Starts, SectionRenumber.Permutation, SectionRenumber.KeptOf, NoOverflow, ShOff, HeaderAt;
    SectionLengths(secs, order, ss, ks);
    OrderedPermutes(secs, order, ss, ks);
    KeptArePrefix(secs, order, ss, ks, |ks|);
    NoOverflowSound(ss, segs, c);
    var shAddr, shOffset := LayoutSections(ss, segs, c, phdr, phfill);
    offsets := StoreOffsets(order, shOffset);
    var snew, backmap := SectionRenumber.BuildBackmap(order, seq(|secs|, k requires 0 <= k < |secs| => secs[k].named));
    assert snew == order[..1 + Listed(ks, |ks|)];
    var outs := Outputs(secs, datas, offsets, snew);
    OutputsFit(secs, datas, order, ss, ks, segs, c, phdr.Length, offsets, outs);
    var phdrs := EncodeHeaders(phdr, encode);
    file := OutputElf(ehdr, phdrs, phdr.Length, shdrs, outs);
    forall k | 1 <= k < |secs| && secs[k].named && secs[k].kind != Nobits
      ensures At(file, OutOf(secs, datas, offsets, k))
    {
      var q := NamedPlace(secs, order, ss, ks, k);
      assert outs[q - 1] == OutOf(secs, datas, offsets, snew[q]);
    }
    forall m | 0 <= m < phdr.Length ensures PhdrAt(file, m, encode(phdr[m])) {
      PhdrIn(file, ehdr, phdrs, m, encode(phdr[m]));
    }
  }

  lemma NoOverflowSound(ss: seq<Sec>, segs: seq<Seg>, c: Config)
    requires NoOverflow(ss, segs, c)
    ensures Sound(ss, segs, c)
  {
  }

  /** A named section is among the first of the order. */
  lemma NamedPlace(secs: seq<Sec>, order: seq<nat>, ss: seq<Sec>, ks: seq<nat>, k: nat) returns (q: nat)
    requires Ordered(secs, true, order, ss, ks) && SectionRenumber.Permutation(order, |secs|)
    requires 1 <= k < |secs| && secs[k].named
    ensures 1 <= q <= Listed(ks, |ks|) && q < |order| && order[q] == k
  {
    q := Origin(order, k);
    NamedFirst(secs, order, ss, ks, |ks|);
    PlacedSame(secs, order, ss, ks, q - 1);
  }

  /** Program header m follows the file header. */
  ghost predicate PhdrAt(file: seq<byte>, m: nat, code: seq<byte>) {
    var p := EHDR_SIZE + m * PHDR_SIZE;
    p + PHDR_SIZE <= |file| && file[p..p + PHDR_SIZE] == code
  }

  lemma PhdrIn(file: seq<byte>, ehdr: seq<byte>, phdrs: seq<byte>, m: nat, code: seq<byte>)
    requires |ehdr| == EHDR_SIZE && ehdr + phdrs <= file && HeaderCode(phdrs, m, code)
    ensures PhdrAt(file, m, code)
  {
    var p := EHDR_SIZE + m * PHDR_SIZE;
    assert file[p..p + PHDR_SIZE] == (ehdr + phdrs)[p..p + PHDR_SIZE] == phdrs[m * PHDR_SIZE..(m + 1) * PHDR_SIZE];
  }

  /** elf_output_obj: the bytes of every section stand at its sixteen-byte aligned offset. */
  method WriteObject(sizes: seq<nat>, nobits: seq<bool>, datas: seq<seq<byte>>, ehdr: seq<byte>, shdrs: seq<seq<byte>>)
    returns (file: seq<byte>, offsets: seq<nat>)
    requires |sizes| == |nobits| == |datas| && |shdrs| == |sizes| + 1 && |ehdr| == EHDR_SIZE
    requires forall i :: 0 <= i < |shdrs| ==> |shdrs[i]| == SHDR_SIZE
    requires forall i :: 0 <= i < |sizes| && !nobits[i] ==> sizes[i] <= |datas[i]|
    ensures |offsets| == |sizes| && forall i :: 0 <= i < |sizes| ==> offsets[i] % 16 == 0
    ensures forall i :: 0 <= i < |sizes| && !nobits[i] ==> At(file, OutSec(false, offsets[i], sizes[i], datas[i]))
    ensures forall i :: 0 <= i < |shdrs| ==> HeaderAt(file, ShOff(0), shdrs, i)
  {
    hide At, HeaderAt, HeaderSize;
    offsets := ObjectOffsets(sizes, nobits);
    var outs := seq(|sizes|, i requires 0 <= i < |sizes| == |nobits| == |datas| == |offsets| =>
      OutSec(nobits[i], offsets[i], sizes[i], datas[i]));
    file := OutputElf(ehdr, [], 0, shdrs, outs);
    forall i | 0 <= i < |sizes| && !nobits[i] ensures At(file, OutSec(false, offsets[i], sizes[i], datas[i])) {
      assert outs[i] == OutSec(false, offsets[i], sizes[i], datas[i]);
    }
  }
}
