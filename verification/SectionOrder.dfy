/** The order of the sections in the output and the program headers they start: sort_sections
    (tccelf.c). */
module SectionOrder {
  datatype Kind =
    | Symtab | Dynsym | Strtab | Hash | GnuHash | Version | Reloc | PreinitArray | InitArray | FiniArray
    | Dynamic | Note | Nobits | Progbits

  /** What sort_sections and layout_sections look at in a section. The last five fields say that it
      is .stabstr, the relocations of the PLT, the GOT, the interpreter name, or has relocations
      that are loaded. */
  datatype Sec = Sec(named: bool, kind: Kind, alloc: bool, write: bool, exec: bool, tls: bool,
                     align: nat, size: nat,
                     stabstr: bool, pltReloc: bool, got: bool, interp: bool, dynReloc: bool)

  const UNLISTED: nat := 0x900
  const UNLOADED: nat := 0x700
  const RELRO: nat := 0x24
  const CLASSES: nat := 0x1000

  /** j: by memory protection; sections without a name do not go to the file. */
  function Protection(s: Sec, elf: bool): (j: nat)
    ensures j in {0x100, 0x200, 0x300, 0x400, UNLOADED, UNLISTED}
    ensures j < UNLOADED <==> s.named && s.alloc
    ensures elf ==> (j == UNLISTED <==> !s.named)
  {
    var j :=
      if !s.named then UNLISTED
      else if s.alloc then (if s.write then 0x200 else 0x100) + (if s.tls then 0x200 else 0)
      else UNLOADED;
    if j >= UNLOADED && !elf then UNLISTED else j
  }

  /** k: by contents. */
  function Contents(s: Sec, j: nat, isLast: bool): (k: nat)
    ensures k < 0x100
  {
    if s.kind == Symtab || s.kind == Dynsym then 0x10
    else if s.kind == Strtab && !s.stabstr then (if isLast then 0xff else 0x11)
    else if s.kind == Hash || s.kind == GnuHash then 0x12
    else if s.kind == Version then 0x13
    else if s.kind == Reloc then (if s.pltReloc then 0x21 else 0x20)
    else if s.exec then 0x30
    else if s.kind == PreinitArray then 0x41
    else if s.kind == InitArray then 0x42
    else if s.kind == FiniArray then 0x43
    else if s.kind == Dynamic then 0x46
    else if s.got then 0x47
    else if s.dynReloc && j == 0x100 then 0x44
    else if s.kind == Note then 0x60
    else if s.kind == Nobits then 0x70
    else if s.interp then 0x00
    else 0x50
  }

  /** Read-only data that relocation writes to is moved to the writable classes. */
  function IsRelro(k: nat): bool {
    k / 16 == 0x14
  }

  function Class(s: Sec, elf: bool, isLast: bool): (k: nat)
    ensures k < CLASSES
    ensures k < UNLOADED <==> s.named && s.alloc
    ensures elf ==> (k < UNLISTED <==> s.named)
  {
    var j := Protection(s, elf);
    var k := Contents(s, j, isLast) + j;
    if IsRelro(k) then k + 0x100 else k
  }

  /** The section as sort_sections leaves it. */
  function Adjusted(s: Sec, elf: bool, isLast: bool): (r: Sec)
    ensures r == s.(size := r.size, write := r.write)
    ensures elf || (s.named && s.alloc) ==> r.size == s.size
  {
    s.(size := if !elf && !(s.named && s.alloc) then 0 else s.size,
       write := s.write || IsRelro(Contents(s, Protection(s, elf), isLast) + Protection(s, elf)))
  }

  /** The sections of the RELRO classes are made writable, and no others; what is not in memory takes
      no part in a flat binary. */
  lemma AdjustedWrites(s: Sec, elf: bool, isLast: bool)
    ensures Adjusted(s, elf, isLast).write <==> s.write || Class(s, elf, isLast) / 16 == RELRO
    ensures !elf && !(s.named && s.alloc) ==> Adjusted(s, elf, isLast).size == 0
  {
    hide Contents;
  }

  /** order[1..k] holds the sections 1..k by class, and sections of one class by number. */
  ghost predicate Ranked(order: seq<nat>, cls: seq<nat>, secs: seq<Sec>, elf: bool, k: nat) {
    |order| == |cls| == |secs| && k <= |secs| &&
    (forall p :: 1 <= p < k ==> 1 <= order[p] < k && cls[p] == Class(secs[order[p]], elf, order[p] == |secs| - 1)) &&
    (forall p, q :: 1 <= p < q < k ==> cls[p] <= cls[q] && (cls[p] == cls[q] ==> order[p] < order[q])) &&
    (forall p, q :: 1 <= p < q < k ==> order[p] != order[q])
  }

  lemma RankedInsert(order: seq<nat>, cls: seq<nat>, secs: seq<Sec>, elf: bool, i: nat, n: nat,
                     order': seq<nat>, cls': seq<nat>)
    requires 1 <= n <= i < |secs| && Ranked(order, cls, secs, elf, i)
    requires |order'| == |cls'| == |secs| && order'[n] == i && cls'[n] == Class(secs[i], elf, i == |secs| - 1)
    requires forall p :: 1 <= p < n ==> order'[p] == order[p] && cls'[p] == cls[p]
    requires forall p :: n < p <= i ==> order'[p] == order[p - 1] && cls'[p] == cls[p - 1]
    requires forall p :: n <= p < i ==> cls'[n] < cls[p]
    requires forall p :: 1 <= p < n ==> cls[p] <= cls'[n]
    ensures Ranked(order', cls', secs, elf, i + 1)
  {
    hide Class;
    forall p, q | 1 <= p < q < i + 1
      ensures cls'[p] <= cls'[q] && (cls'[p] == cls'[q] ==> order'[p] < order'[q]) && order'[p] != order'[q]
    {
      var p0, q0 := if p > n then p - 1 else p, if q > n then q - 1 else q;
      if p != n && q != n {
        assert cls[p0] <= cls[q0] && order[p0] != order[q0];
      }
    }
  }

  /** The insertion sort of sort_sections; place 0 is the null section. */
  method SortByClass(secs: seq<Sec>, elf: bool) returns (order: array<nat>, cls: array<nat>)
    requires |secs| > 0
    ensures fresh(order) && fresh(cls) && order.Length == |secs| && order[0] == 0
    ensures Ranked(order[..], cls[..], secs, elf, |secs|)
  {
    hide Class, Ranked;
    order, cls := new nat[|secs|], new nat[|secs|];
    RankedStart(order[..], cls[..], secs, elf);
    for i := 1 to |secs|
      invariant order.Length == cls.Length == |secs| && Ranked(order[..], cls[..], secs, elf, i)
    {
      var k := Class(secs[i], elf, i == |secs| - 1);
      InsertAt(order, cls, secs, elf, i, k);
    }
    ghost var o := order[..];
    order[0] := 0;
    RankedHead(o, order[..], cls[..], secs, elf);
  }

  lemma RankedStart(order: seq<nat>, cls: seq<nat>, secs: seq<Sec>, elf: bool)
    requires |order| == |cls| == |secs| > 0
    ensures Ranked(order, cls, secs, elf, 1)
  {
  }

  lemma RankedHead(o: seq<nat>, order: seq<nat>, cls: seq<nat>, secs: seq<Sec>, elf: bool)
    requires Ranked(o, cls, secs, elf, |secs|) && |o| == |order| > 0 && forall p :: 1 <= p < |o| ==> order[p] == o[p]
    ensures Ranked(order, cls, secs, elf, |secs|)
  {
    hide Class;
  }

  /** One turn: section i enters the sorted part. */
  method InsertAt(order: array<nat>, cls: array<nat>, secs: seq<Sec>, elf: bool, i: nat, k: nat)
    requires order.Length == cls.Length == |secs| && order != cls && 1 <= i < |secs|
    requires Ranked(order[..], cls[..], secs, elf, i) && k == Class(secs[i], elf, i == |secs| - 1)
    modifies order, cls
    ensures Ranked(order[..], cls[..], secs, elf, i + 1)
  {
    hide Class, Ranked;
    ghost var o, c := order[..], cls[..];
    RankedClasses(o, c, secs, elf, i);
    ghost var n := ShiftUp(order, cls, i, k);
    RankedInsert(o, c, secs, elf, i, n, order[..], cls[..]);
  }

  /** The inner loop: larger classes move up, section i takes the gap at n. */
  method ShiftUp(order: array<nat>, cls: array<nat>, i: nat, k: nat) returns (ghost gap: nat)
    requires order.Length == cls.Length && order != cls && 1 <= i < order.Length
    requires forall p, q :: 1 <= p < q < i ==> cls[p] <= cls[q]
    modifies order, cls
    ensures 1 <= gap <= i && order[gap] == i && cls[gap] == k
    ensures forall p :: 1 <= p < gap ==> order[p] == old(order[p]) && cls[p] == old(cls[p]) && old(cls[p]) <= k
    ensures forall p :: gap < p <= i ==> order[p] == old(order[p - 1]) && cls[p] == old(cls[p - 1])
    ensures forall p :: gap <= p < i ==> k < old(cls[p])
  {
    var n := i;
    while n > 1 && k < cls[n - 1]
      invariant 1 <= n <= i
      invariant forall p :: 1 <= p <= n ==> order[p] == old(order[p]) && cls[p] == old(cls[p])
      invariant forall p :: n < p <= i ==> order[p] == old(order[p - 1]) && cls[p] == old(cls[p - 1])
      invariant forall p :: n <= p < i ==> k < old(cls[p])
    {
      cls[n], order[n] := cls[n - 1], order[n - 1];
      n := n - 1;
    }
    cls[n], order[n] := k, i;
    gap := n;
  }

  lemma RankedClasses(order: seq<nat>, cls: seq<nat>, secs: seq<Sec>, elf: bool, k: nat)
    requires Ranked(order, cls, secs, elf, k)
    ensures |order| == |cls| == |secs| && forall p, q :: 1 <= p < q < k ==> cls[p] <= cls[q]
  {
  }
}
