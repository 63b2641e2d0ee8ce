/** Relocation entries and the renumbering of the symbols they name (tccelf.c, elf.h). */
module Relocations {
  import opened Bytes

  datatype Rel = Rel(offset: nat, info: nat)

  const R_386_32: nat := 1
  const R_386_PC32: nat := 2
  const R_386_GOT32: nat := 3
  const R_386_PLT32: nat := 4
  const R_386_GLOB_DAT: nat := 6
  const R_386_JMP_SLOT: nat := 7
  const R_386_RELATIVE: nat := 8
  const R_386_GOTOFF: nat := 9
  const R_386_GOTPC: nat := 10
  const R_386_16: nat := 20
  const R_386_PC16: nat := 21
  const R_386_GOT32X: nat := 43

  const SYM_LIMIT: nat := 0x100_0000

  function RSym(info: nat): nat {
    info / 256
  }

  function RType(info: nat): (t: nat)
    ensures t < 256
  {
    info % 256
  }

  /** ELF32_R_INFO, as stored in 32 bits: a symbol index above 24 bits is cut. */
  function RInfo(sym: nat, typ: nat): (info: nat)
    ensures RType(info) == typ % 256
    ensures info < WORD && RSym(info) == sym % SYM_LIMIT
  {
    Wrap32(sym * 256 + typ % 256)
  }

  function Redirect(r: Rel, tr: seq<nat>, first: nat): Rel
    requires RSym(r.info) < first + |tr|
  {
    if RSym(r.info) < first then r else r.(info := RInfo(tr[RSym(r.info) - first], RType(r.info)))
  }

  predicate InRange(rels: seq<Rel>, limit: nat) {
    forall i :: 0 <= i < |rels| ==> RSym(rels[i].info) < limit
  }

  ghost predicate Redirected(now: seq<Rel>, was: seq<Rel>, tr: seq<nat>, first: nat)
    requires InRange(was, first + |tr|)
  {
    |now| == |was| && forall i :: 0 <= i < |was| ==> now[i] == Redirect(was[i], tr, first)
  }

  predicate AllInRange(sections: seq<seq<Rel>>, limit: nat) {
    forall i :: 0 <= i < |sections| ==> InRange(sections[i], limit)
  }

  ghost predicate AllRedirected(now: seq<seq<Rel>>, was: seq<seq<Rel>>, tr: seq<nat>, first: nat)
    requires AllInRange(was, first + |tr|)
  {
    |now| == |was| && forall i :: 0 <= i < |was| ==> Redirected(now[i], was[i], tr, first)
  }

  /** update_relocs: every section of relocations against the table is rewritten in place. */
  method UpdateRelocs(sections: array<seq<Rel>>, tr: seq<nat>, first: nat)
    requires AllInRange(sections[..], first + |tr|)
    modifies sections
    ensures AllRedirected(sections[..], old(sections[..]), tr, first)
  {
    hide RSym, RType, RInfo;
    for i := 0 to sections.Length
      invariant forall k :: 0 <= k < i ==> Redirected(sections[k], old(sections[k]), tr, first)
      invariant forall k :: i <= k < sections.Length ==> sections[k] == old(sections[k])
    {
      var was := sections[i];
      for j := 0 to |was|
        invariant forall k :: 0 <= k < i ==> Redirected(sections[k], old(sections[k]), tr, first)
        invariant forall k :: i < k < sections.Length ==> sections[k] == old(sections[k])
        invariant |sections[i]| == |was|
        invariant forall k :: 0 <= k < j ==> sections[i][k] == Redirect(was[k], tr, first)
        invariant forall k :: j <= k < |was| ==> sections[i][k] == was[k]
      {
        var rel := sections[i][j];
        var symIndex, typ := RSym(rel.info) - first, RType(rel.info);
        if symIndex >= 0 {
          sections[i] := sections[i][j := rel.(info := RInfo(tr[symIndex], typ))];
        }
      }
    }
  }

  /** moved holds the elements of s, element i at place tr[i]. */
  ghost predicate Moved<T(!new)>(s: seq<T>, moved: seq<T>, tr: seq<nat>) {
    |s| == |moved| == |tr| &&
    (forall i :: 0 <= i < |s| ==> tr[i] < |s| && moved[tr[i]] == s[i]) &&
    (forall i, j :: 0 <= i < j < |s| ==> tr[i] != tr[j])
  }

  /** A reordered table with redirected relocations: each one names the record it named, exactly
      when the new index fits 24 bits. */
  lemma MovedKeepsTarget<T(!new)>(s: seq<T>, moved: seq<T>, tr: seq<nat>, was: Rel, now: Rel)
    requires Moved(s, moved, tr) && RSym(was.info) < |s| && now == Redirect(was, tr, 0)
    ensures var k := tr[RSym(was.info)];
      k < |moved| && moved[k] == s[RSym(was.info)] && (RSym(now.info) == k <==> k < SYM_LIMIT)
    ensures RType(now.info) == RType(was.info) && now.offset == was.offset
  {
    hide RInfo;
  }
}
