/** The GOT and PLT: put_got_entry (tccelf.c), create_plt_entry and relocate_plt (i386-link.c).
    System V ABI, Intel386 supplement, chapter 5, Procedure Linkage Table. */
module PltGot {
  import opened Bits
  import opened Bytes
  import opened Symbols
  import opened Relocations

  const REL_SIZE: nat := 8
  const ENTRY: nat := 16
  const GOT_HEADER: nat := 12   // the address of _DYNAMIC and two words for the loader

  /** struct sym_attr; an offset of 0 means that there is no entry. */
  datatype SymAttr = SymAttr(gotOffset: nat, pltOffset: nat, pltSym: nat, dynIndex: nat)

  const NO_ATTR: SymAttr := SymAttr(0, 0, 0, 0)

  /** A GOT slot belongs to one symbol, for its address or for calls through the PLT. */
  datatype Owner = Owner(sym: nat, plt: bool)

  function SlotOffset(k: nat): nat {
    GOT_HEADER + 4 * k
  }

  function EntryOffset(j: nat): nat {
    ENTRY * (j + 1)
  }

  // ---------------------------------------------------------------- the bytes of the PLT

  /** The ModR/M byte of the jumps: relative to ebx if the output is relocated when loaded. */
  function JumpModrm(dyn: bool): (m: byte)
    ensures m + 0x10 < 256
  {
    if dyn then 0xa3 else 0x25
  }

  function Plt0(modrm: byte): (s: seq<byte>)
    requires modrm + 0x10 < 256
    ensures |s| == ENTRY
  {
    [0xff, modrm + 0x10] + Le32(4) + [0xff, modrm] + Le32(8) + [0, 0, 0, 0]
  }

  /** jmp *slot; push relocation offset; jmp PLT0. */
  function PltEntry(modrm: byte, slot: nat, relOffset: int, end: int): (s: seq<byte>)
    ensures |s| == ENTRY
  {
    [0xff, modrm] + Le32(slot) + [0x68] + Le32(relOffset) + [0xe9] + Le32(-end)
  }

  /** Entry j at place p of the PLT: it jumps through slot, pushes the byte offset of relocation j
      and branches to the start of the PLT. */
  ghost predicate EntryAt(plt: seq<byte>, p: nat, modrm: byte, slot: int, j: nat) {
    p + ENTRY <= |plt| &&
    plt[p] == 0xff && plt[p + 1] == modrm && Read32(plt, p + 2) == Wrap32(slot) &&
    plt[p + 6] == 0x68 && Read32(plt, p + 7) == Wrap32(REL_SIZE * j) &&
    plt[p + 11] == 0xe9 && Wrap32(p + ENTRY + Read32(plt, p + 12)) == 0
  }

  lemma Middle(a: seq<byte>, b: seq<byte>, c: seq<byte>)
    ensures (a + b + c)[|a|..|a| + |b|] == b
  {
  }

  lemma BranchBack(end: int)
    ensures Wrap32(end + Wrap32(-end)) == 0
  {
    WrapCongruent(end + Wrap32(-end), 0, (end + Wrap32(-end)) / WORD);
  }

  lemma EntryMeans(plt: seq<byte>, p: nat, modrm: byte, slot: nat, j: nat)
    requires p + ENTRY <= |plt| && plt[p..p + ENTRY] == PltEntry(modrm, slot, REL_SIZE * j, p + ENTRY)
    ensures EntryAt(plt, p, modrm, slot, j)
  {
    hide Le32, Read32, Wrap32;
    var end: int := p + ENTRY;
    var e, jump, push, back := plt[p..p + ENTRY], Le32(slot), Le32(REL_SIZE * j), Le32(-end);
    assert e[0] == plt[p] && e[1] == plt[p + 1] && e[6] == plt[p + 6] && e[11] == plt[p + 11];
    EntryWord(plt, p, [0xff, modrm], jump, [0x68] + push + [0xe9] + back);
    EntryWord(plt, p, [0xff, modrm] + jump + [0x68], push, [0xe9] + back);
    EntryWord(plt, p, [0xff, modrm] + jump + [0x68] + push + [0xe9], back, []);
    ReadAt(plt, p + 2, slot);
    ReadAt(plt, p + 7, REL_SIZE * j);
    ReadAt(plt, p + 12, -end);
    BranchBack(end);
  }

  /** Four bytes in the middle of an entry. */
  lemma EntryWord(plt: seq<byte>, p: nat, a: seq<byte>, b: seq<byte>, c: seq<byte>)
    requires p + ENTRY <= |plt| && |b| == 4 && plt[p..p + ENTRY] == a + b + c
    ensures plt[p + |a|..p + |a| + 4] == b
  {
    var e, w := plt[p..p + ENTRY], plt[p + |a|..p + |a| + 4];
    Middle(a, b, c);
    assert forall i :: 0 <= i < 4 ==> w[i] == e[|a| + i] == b[i];
  }

  lemma EntrySame(plt: seq<byte>, longer: seq<byte>, p: nat, modrm: byte, slot: int, j: nat)
    requires EntryAt(plt, p, modrm, slot, j) && plt <= longer
    ensures EntryAt(longer, p, modrm, slot, j)
  {
    assert forall x :: p <= x < p + ENTRY ==> longer[x] == plt[x];
  }

  // ---------------------------------------------------------------- the tables

  /** How the tables fit together; slots and users are who asked for each GOT slot and PLT entry. */
  ghost predicate Consistent(modrm: byte, got: seq<byte>, plt: seq<byte>, pltRels: seq<Rel>, gotRels: seq<Rel>,
                             attrs: seq<SymAttr>, slots: seq<Owner>, users: seq<nat>) {
    |got| == SlotOffset(|slots|) && |pltRels| == |users| && |pltRels| + |gotRels| == |slots| &&
    |plt| == (if users == [] then 0 else EntryOffset(|users|)) &&
    (forall j, k :: 0 <= j < k < |slots| ==> slots[j] != slots[k]) &&
    (forall j, k :: 0 <= j < k < |users| ==> users[j] != users[k]) &&
    (forall k :: 0 <= k < |slots| ==> OwnsSlot(attrs, slots[k], k)) &&
    (forall j :: 0 <= j < |users| ==> OwnsEntry(modrm, plt, pltRels, attrs, slots, users[j], j)) &&
    Served(attrs, slots, users)
  }

  /** An offset in the attributes of a symbol belongs to a slot, or to a slot and an entry, of its own. */
  ghost predicate Served(attrs: seq<SymAttr>, slots: seq<Owner>, users: seq<nat>) {
    (forall i :: 0 <= i < |attrs| && attrs[i].gotOffset != 0 ==> Owner(i, false) in slots) &&
    (forall i :: 0 <= i < |attrs| && attrs[i].pltOffset != 0 ==> Owner(i, true) in slots && i in users)
  }

  lemma ServedMore(attrs: seq<SymAttr>, slots: seq<Owner>, users: seq<nat>, i: nat, a: SymAttr, plt: bool)
    requires Served(attrs, slots, users) && i < |attrs|
    requires if plt then a.gotOffset == attrs[i].gotOffset else a.pltOffset == attrs[i].pltOffset
    ensures Served(attrs[i := a], slots + [Owner(i, plt)], users + (if plt then [i] else []))
  {
    var slots', users' := slots + [Owner(i, plt)], users + (if plt then [i] else []);
    assert slots'[|slots|] == Owner(i, plt);
    assert plt ==> users'[|users|] == i;
    assert forall o :: o in slots ==> o in slots';
    assert forall u :: u in users ==> u in users';
  }

  ghost predicate OwnsSlot(attrs: seq<SymAttr>, o: Owner, k: nat) {
    o.sym < |attrs| &&
    (o.plt ==> attrs[o.sym].pltOffset != 0) &&
    (!o.plt ==> attrs[o.sym].gotOffset == SlotOffset(k))
  }

  /** PLT entry j, its relocation and its slot serve the same symbol. */
  ghost predicate OwnsEntry(modrm: byte, plt: seq<byte>, pltRels: seq<Rel>, attrs: seq<SymAttr>, slots: seq<Owner>,
                            user: nat, j: nat)
    requires j < |pltRels|
  {
    user < |attrs| && attrs[user].pltOffset == EntryOffset(j) && attrs[user].dynIndex != 0 &&
    pltRels[j].info == RInfo(attrs[user].dynIndex, R_386_JMP_SLOT) &&
    (exists k :: 0 <= k < |slots| && slots[k] == Owner(user, true) && pltRels[j].offset == SlotOffset(k)) &&
    EntryAt(plt, EntryOffset(j), modrm, pltRels[j].offset, j)
  }

  lemma AttrsGrow(modrm: byte, got: seq<byte>, plt: seq<byte>, pltRels: seq<Rel>, gotRels: seq<Rel>,
                  was: seq<SymAttr>, attrs: seq<SymAttr>, slots: seq<Owner>, users: seq<nat>)
    requires Consistent(modrm, got, plt, pltRels, gotRels, was, slots, users) && |was| <= |attrs|
    requires forall i :: 0 <= i < |attrs| ==> attrs[i] == if i < |was| then was[i] else NO_ATTR
    ensures Consistent(modrm, got, plt, pltRels, gotRels, attrs, slots, users)
  {
    hide EntryAt;
    forall j | 0 <= j < |users| ensures OwnsEntry(modrm, plt, pltRels, attrs, slots, users[j], j) {
      assert OwnsEntry(modrm, plt, pltRels, was, slots, users[j], j);
    }
    forall k | 0 <= k < |slots| ensures OwnsSlot(attrs, slots[k], k) {
      assert OwnsSlot(was, slots[k], k);
    }
  }

  /** A new slot for a symbol's address. */
  lemma SlotAdded(modrm: byte, got: seq<byte>, plt: seq<byte>, pltRels: seq<Rel>, gotRels: seq<Rel>,
                  attrs: seq<SymAttr>, slots: seq<Owner>, users: seq<nat>, i: nat, r: Rel, a: SymAttr)
    requires Consistent(modrm, got, plt, pltRels, gotRels, attrs, slots, users)
    requires i < |attrs| && attrs[i].gotOffset == 0 && r.offset == |got|
    requires a == attrs[i].(gotOffset := |got|, dynIndex := a.dynIndex)
    requires attrs[i].dynIndex != 0 ==> a.dynIndex == attrs[i].dynIndex
    ensures Consistent(modrm, got + [0, 0, 0, 0], plt, pltRels, gotRels + [r], attrs[i := a],
                       slots + [Owner(i, false)], users)
  {
    hide EntryAt;
    var slots', attrs' := slots + [Owner(i, false)], attrs[i := a];
    forall k | 0 <= k < |slots| ensures slots[k] != Owner(i, false) {
      assert OwnsSlot(attrs, slots[k], k);
    }
    forall k | 0 <= k < |slots'| ensures OwnsSlot(attrs', slots'[k], k) {
      if k < |slots| {
        assert OwnsSlot(attrs, slots[k], k);
      }
    }
    forall j | 0 <= j < |users| ensures OwnsEntry(modrm, plt, pltRels, attrs', slots', users[j], j) {
      assert OwnsEntry(modrm, plt, pltRels, attrs, slots, users[j], j);
      EntryKept(modrm, plt, plt, pltRels, pltRels, attrs, attrs', slots, slots', users[j], j);
    }
    ServedMore(attrs, slots, users, i, a, false);
    hide OwnsSlot, OwnsEntry, Served;
  }

  /** What an entry owns survives growth of the tables. */
  lemma EntryKept(modrm: byte, plt: seq<byte>, plt': seq<byte>, rels: seq<Rel>, rels': seq<Rel>,
                  attrs: seq<SymAttr>, attrs': seq<SymAttr>, slots: seq<Owner>, slots': seq<Owner>, user: nat, j: nat)
    requires j < |rels| && OwnsEntry(modrm, plt, rels, attrs, slots, user, j)
    requires plt <= plt' && rels <= rels' && slots <= slots' && |attrs| == |attrs'|
    requires attrs'[user].pltOffset == attrs[user].pltOffset && attrs'[user].dynIndex == attrs[user].dynIndex
    ensures OwnsEntry(modrm, plt', rels', attrs', slots', user, j)
  {
    EntrySame(plt, plt', EntryOffset(j), modrm, rels[j].offset, j);
    hide EntryAt;
    var k :| 0 <= k < |slots| && slots[k] == Owner(user, true) && rels[j].offset == SlotOffset(k);
    assert slots'[k] == slots[k];
    assert rels'[j] == rels[j];
  }

  /** A new PLT entry with its slot and its relocation. */
  lemma EntryAdded(modrm: byte, got: seq<byte>, plt: seq<byte>, plt': seq<byte>, pltRels: seq<Rel>, gotRels: seq<Rel>,
                   attrs: seq<SymAttr>, slots: seq<Owner>, users: seq<nat>, i: nat, r: Rel, a: SymAttr)
    requires Consistent(modrm, got, plt, pltRels, gotRels, attrs, slots, users)
    requires i < |attrs| && attrs[i].pltOffset == 0 && a.dynIndex != 0 && a.gotOffset == attrs[i].gotOffset
    requires attrs[i].dynIndex != 0 ==> a.dynIndex == attrs[i].dynIndex
    requires r == Rel(|got|, RInfo(a.dynIndex, R_386_JMP_SLOT)) && a.pltOffset == EntryOffset(|users|)
    requires plt <= plt' && |plt'| == EntryOffset(|users| + 1)
    requires plt'[a.pltOffset..] == PltEntry(modrm, |got|, REL_SIZE * |pltRels|, |plt'|)
    ensures Consistent(modrm, got + [0, 0, 0, 0], plt', pltRels + [r], gotRels, attrs[i := a],
                       slots + [Owner(i, true)], users + [i])
  {
    assert plt'[a.pltOffset..a.pltOffset + ENTRY] == plt'[a.pltOffset..];
    EntryMeans(plt', a.pltOffset, modrm, |got|, |users|);
    hide EntryAt, PltEntry, Served;
    NewOwner(modrm, plt, pltRels, attrs, slots, users, i);
    var slots', attrs', users', rels' := slots + [Owner(i, true)], attrs[i := a], users + [i], pltRels + [r];
    forall k | 0 <= k < |slots'| ensures OwnsSlot(attrs', slots'[k], k) {
      if k < |slots| {
        assert OwnsSlot(attrs, slots[k], k);
      }
    }
    hide OwnsSlot;
    forall j | 0 <= j < |users'| ensures OwnsEntry(modrm, plt', rels', attrs', slots', users'[j], j) {
      if j < |users| {
        assert OwnsEntry(modrm, plt, pltRels, attrs, slots, users[j], j);
        EntryKept(modrm, plt, plt', pltRels, rels', attrs, attrs', slots, slots', users[j], j);
      } else {
        assert slots'[|slots|] == Owner(i, true) && SlotOffset(|slots|) == |got|;
      }
    }
    hide OwnsEntry;
    ServedMore(attrs, slots, users, i, a, true);
  }

  /** A symbol without a PLT entry owns neither a PLT slot nor an entry. */
  lemma NewOwner(modrm: byte, plt: seq<byte>, pltRels: seq<Rel>, attrs: seq<SymAttr>,
                 slots: seq<Owner>, users: seq<nat>, i: nat)
    requires i < |attrs| && attrs[i].pltOffset == 0 && |users| <= |pltRels|
    requires forall k :: 0 <= k < |slots| ==> OwnsSlot(attrs, slots[k], k)
    requires forall j :: 0 <= j < |users| ==> OwnsEntry(modrm, plt, pltRels, attrs, slots, users[j], j)
    ensures forall k :: 0 <= k < |slots| ==> slots[k] != Owner(i, true)
    ensures forall j :: 0 <= j < |users| ==> users[j] != i
  {
    hide EntryAt;
    forall k | 0 <= k < |slots| ensures slots[k] != Owner(i, true) {
      assert OwnsSlot(attrs, slots[k], k);
    }
    forall j | 0 <= j < |users| ensures users[j] != i {
      assert OwnsEntry(modrm, plt, pltRels, attrs, slots, users[j], j);
    }
  }

  /** The relocations of two PLT entries name slots that do not overlap, inside the GOT. */
  lemma SlotsApart(modrm: byte, got: seq<byte>, plt: seq<byte>, pltRels: seq<Rel>, gotRels: seq<Rel>,
                   attrs: seq<SymAttr>, slots: seq<Owner>, users: seq<nat>, i: nat, j: nat)
    requires Consistent(modrm, got, plt, pltRels, gotRels, attrs, slots, users) && i < |users| && j < |users|
    ensures GOT_HEADER <= pltRels[i].offset && pltRels[i].offset + 4 <= |got|
    ensures i != j ==> Apart(pltRels[i].offset, pltRels[j].offset)
  {
    hide EntryAt, OwnsSlot;
    assert OwnsEntry(modrm, plt, pltRels, attrs, slots, users[i], i);
    assert OwnsEntry(modrm, plt, pltRels, attrs, slots, users[j], j);
    var k :| 0 <= k < |slots| && slots[k] == Owner(users[i], true) && pltRels[i].offset == SlotOffset(k);
    var m :| 0 <= m < |slots| && slots[m] == Owner(users[j], true) && pltRels[j].offset == SlotOffset(m);
    if i != j {
      assert users[i] != users[j];
      assert k != m;
    }
  }

  // ---------------------------------------------------------------- relocation of the PLT

  /** The word at p has base added, as far as the first limit bytes go. */
  ghost predicate Rebased(was: seq<byte>, now: seq<byte>, base: int, limit: nat) {
    |now| == |was| && ENTRY <= limit <= |was| &&
    Read32(now, 2) == Wrap32(Read32(was, 2) + base) && Read32(now, 8) == Wrap32(Read32(was, 8) + base) &&
    (forall p: nat :: IsEntry(p, limit) ==> Read32(now, p + 2) == Wrap32(Read32(was, p + 2) + base)) &&
    (forall x :: 0 <= x < |was| && (x >= limit || !Operand(x)) ==> now[x] == was[x])
  }

  predicate IsEntry(p: nat, limit: nat) {
    p % ENTRY == 0 && ENTRY <= p && p + ENTRY <= limit
  }

  /** Byte x of the PLT belongs to an address in the GOT. */
  predicate Operand(x: nat) {
    2 <= x % ENTRY < 6 || 8 <= x < 12
  }

  lemma RebaseHead(was: seq<byte>, base: int)
    requires ENTRY <= |was|
    ensures var once := Put32(was, 2, Read32(was, 2) + base);
      Rebased(was, Put32(once, 8, Read32(once, 8) + base), base, ENTRY)
  {
    hide Read32, Put32, Wrap32;
    var once := Put32(was, 2, Read32(was, 2) + base);
    var twice := Put32(once, 8, Read32(once, 8) + base);
    ReadPut(was, 2, Read32(was, 2) + base);
    ReadPut(once, 8, Read32(once, 8) + base);
    assert Apart(2, 8) && Apart(8, 2);
    forall x | 0 <= x < |was| && (x >= ENTRY || !Operand(x)) ensures twice[x] == was[x] {
      assert !(2 <= x < 6) && !(8 <= x < 12);
    }
  }

  lemma RebaseStep(was: seq<byte>, now: seq<byte>, base: int, p: nat)
    requires Rebased(was, now, base, p) && p % ENTRY == 0 && p + ENTRY <= |was|
    ensures Rebased(was, Put32(now, p + 2, Read32(now, p + 2) + base), base, p + ENTRY)
  {
    hide Read32, Put32, Wrap32;
    var next := Put32(now, p + 2, Read32(now, p + 2) + base);
    var limit := p + ENTRY;
    ReadSame(now, was, p + 2);
    ReadPut(now, p + 2, Read32(now, p + 2) + base);
    assert Apart(2, p + 2) && Apart(8, p + 2) && Apart(p + 2, 2) && Apart(p + 2, 8);
    forall q: nat | IsEntry(q, limit) ensures Read32(next, q + 2) == Wrap32(Read32(was, q + 2) + base) {
      if q != p {
        EntriesBefore(q, p);
        assert Apart(p + 2, q + 2);
      }
    }
    forall x | 0 <= x < |was| && (x >= limit || !Operand(x)) ensures next[x] == was[x] {
      InEntry(p, x);
    }
  }

  lemma EntriesBefore(q: nat, p: nat)
    requires p % ENTRY == 0 && IsEntry(q, p + ENTRY) && q != p
    ensures IsEntry(q, p)
  {
    assert q / ENTRY < p / ENTRY;
    assert q == q / ENTRY * ENTRY && p == p / ENTRY * ENTRY;
  }

  lemma InEntry(p: nat, x: nat)
    requires p % ENTRY == 0
    ensures p <= x < p + ENTRY ==> x % ENTRY == x - p
  {
  }

  /** Entry j means the same with its slot's address shifted by base. */
  lemma EntryRebased(was: seq<byte>, now: seq<byte>, base: int, modrm: byte, slot: nat, j: nat)
    requires Rebased(was, now, base, |was|) && EntryAt(was, EntryOffset(j), modrm, slot, j)
    ensures EntryAt(now, EntryOffset(j), modrm, slot + base, j)
  {
    hide Read32, Wrap32;
    var p := EntryOffset(j);
    assert p % ENTRY == 0;
    assert IsEntry(p, |was|);
    WrapSplit(slot);
    WrapCongruent(slot + base, Wrap32(slot) + base, (slot as int) / WORD);
    forall x | p <= x < p + ENTRY && !(2 <= x - p < 6) ensures now[x] == was[x] {
      InEntry(p, x);
    }
    ReadSame(was, now, p + 7);
    ReadSame(was, now, p + 12);
  }

  lemma WrapSplit(x: nat)
    ensures x == Wrap32(x) + (x as int) / WORD * WORD
  {
  }

  /** The entry that all others branch to pushes the word at base + 4 and jumps through base + 8. */
  ghost predicate HeadAt(plt: seq<byte>, modrm: byte, base: int) {
    ENTRY <= |plt| && modrm + 0x10 < 256 &&
    plt[0] == 0xff && plt[1] == modrm + 0x10 && Read32(plt, 2) == Wrap32(base + 4) &&
    plt[6] == 0xff && plt[7] == modrm && Read32(plt, 8) == Wrap32(base + 8)
  }

  lemma HeadMeans(plt: seq<byte>, modrm: byte)
    requires modrm + 0x10 < 256 && Plt0(modrm) <= plt
    ensures HeadAt(plt, modrm, 0)
  {
    hide Le32, Read32, Wrap32;
    var e := Plt0(modrm);
    assert forall x :: 0 <= x < ENTRY ==> plt[x] == e[x];
    assert plt[2..6] == e[2..6] == Le32(4);
    assert plt[8..12] == e[8..12] == Le32(8);
    ReadAt(plt, 2, 4);
    ReadAt(plt, 8, 8);
  }

  lemma HeadRebased(was: seq<byte>, now: seq<byte>, modrm: byte, base: nat)
    requires Rebased(was, now, base, |was|) && HeadAt(was, modrm, 0)
    ensures HeadAt(now, modrm, base)
  {
    hide Read32;
    assert !Operand(0) && !Operand(1) && !Operand(6) && !Operand(7);
    WrapCongruent(Wrap32(4) + base, base + 4, 0);
    WrapCongruent(Wrap32(8) + base, base + 8, 0);
  }

  /** The GOT after the slots of the first n PLT entries are filled: each holds the address of its
      entry's push, and no other byte has changed. */
  ghost predicate SlotsFilled(was: seq<byte>, now: seq<byte>, rels: seq<Rel>, pltAddr: nat, n: nat)
    requires n <= |rels|
    requires forall j :: 0 <= j < |rels| ==> rels[j].offset + 4 <= |was|
  {
    |now| == |was| &&
    (forall j :: 0 <= j < n ==> Read32(now, rels[j].offset) == Wrap32(pltAddr + EntryOffset(j) + 6)) &&
    (forall x :: 0 <= x < |was| && (forall j :: 0 <= j < n ==> !InWord(x, rels[j].offset)) ==> now[x] == was[x])
  }

  predicate InWord(x: int, p: int) {
    p <= x < p + 4
  }

  lemma FillStep(was: seq<byte>, now: seq<byte>, rels: seq<Rel>, pltAddr: nat, n: nat)
    requires forall j :: 0 <= j < |rels| ==> rels[j].offset + 4 <= |was|
    requires forall i, j :: 0 <= i < j < |rels| ==> Apart(rels[i].offset, rels[j].offset)
    requires n < |rels| && SlotsFilled(was, now, rels, pltAddr, n)
    ensures SlotsFilled(was, Put32(now, rels[n].offset, pltAddr + EntryOffset(n) + 6), rels, pltAddr, n + 1)
  {
    var next := Put32(now, rels[n].offset, pltAddr + EntryOffset(n) + 6);
    ReadPut(now, rels[n].offset, pltAddr + EntryOffset(n) + 6);
    hide Read32, Put32, Wrap32, InWord;
    forall j | 0 <= j < n + 1 ensures Read32(next, rels[j].offset) == Wrap32(pltAddr + EntryOffset(j) + 6) {
      if j < n {
        assert Apart(rels[j].offset, rels[n].offset);
      }
    }
    FillKeeps(was, now, next, rels, pltAddr, n);
  }

  lemma FillKeeps(was: seq<byte>, now: seq<byte>, next: seq<byte>, rels: seq<Rel>, pltAddr: nat, n: nat)
    requires forall j :: 0 <= j < |rels| ==> rels[j].offset + 4 <= |was|
    requires n < |rels| && SlotsFilled(was, now, rels, pltAddr, n) && |next| == |now|
    requires forall i :: 0 <= i < |now| && !(rels[n].offset <= i < rels[n].offset + 4) ==> next[i] == now[i]
    ensures forall x :: 0 <= x < |was| && (forall j :: 0 <= j < n + 1 ==> !InWord(x, rels[j].offset)) ==>
      next[x] == was[x]
  {
    hide Read32, Wrap32;
    forall x | 0 <= x < |was| && (forall j :: 0 <= j < n + 1 ==> !InWord(x, rels[j].offset)) ensures next[x] == was[x] {
      assert !InWord(x, rels[n].offset);
    }
  }

  /** The name of the PLT's own symbol for a function; a long name is cut to fit plt_name. */
  function PltName(name: Name): (r: Name) {
    (if |name| > 195 then name[..195] else name) + [0x40, 0x70, 0x6c, 0x74]
  }

  /** "_GLOBAL_OFFSET_TABLE_". */
  const GOT_NAME: Name := [0x5f, 0x47, 0x4c, 0x4f, 0x42, 0x41, 0x4c, 0x5f, 0x4f, 0x46, 0x46, 0x53, 0x45, 0x54, 0x5f,
                           0x54, 0x41, 0x42, 0x4c, 0x45, 0x5f]

  function GotSymbol(gotSection: nat): Sym {
    Sym(GOT_NAME, 0, 0, Info(STB_GLOBAL, STT_OBJECT), 0, gotSection)
  }

  /** A symbol and its entry in the dynamic symbol table have the same name. */
  ghost predicate SameNames(attrs: seq<SymAttr>, symtab: seq<Sym>, dynsym: seq<Sym>) {
    forall i :: 0 <= i < |attrs| && attrs[i].dynIndex != 0 ==>
      i < |symtab| && attrs[i].dynIndex < |dynsym| && dynsym[attrs[i].dynIndex].name == symtab[i].name
  }

  lemma NamesGrow(was: seq<SymAttr>, attrs: seq<SymAttr>, symtab0: seq<Sym>, symtab: seq<Sym>, dynsym: seq<Sym>)
    requires SameNames(was, symtab0, dynsym) && symtab0 <= symtab && |attrs| == |was|
    requires forall i :: 0 <= i < |attrs| ==> attrs[i].dynIndex == was[i].dynIndex
    ensures SameNames(attrs, symtab, dynsym)
  {
  }

  /** set_elf_sym never returns 0 for such a symbol and keeps the names that are there. */
  lemma InsertNames(t: seq<Sym>, s: Sym, c: Context)
    requires |t| > 0 && s.Hashed()
    ensures Insert(t, s, c).index != 0
    ensures forall i :: 0 <= i < |t| ==> Insert(t, s, c).table[i].name == t[i].name
  {
  }

  // ---------------------------------------------------------------- the relocations of the slots

  /** There is a relocation of this type at offset, naming symbol sym as far as it has 24 bits. */
  ghost predicate Points(rels: seq<Rel>, offset: nat, t: nat, sym: nat) {
    exists i :: 0 <= i < |rels| && rels[i].offset == offset && RType(rels[i].info) == t &&
      RSym(rels[i].info) == sym % SYM_LIMIT
  }

  /** The address of symbol sym comes to slot k: by its dynamic symbol, or, for a local symbol, by a
      relocation that is marked as relative and names the symbol itself. */
  ghost predicate AddressComes(gotRels: seq<Rel>, attrs: seq<SymAttr>, symtab: seq<Sym>, sym: nat, k: nat) {
    sym < |attrs| && sym < |symtab| &&
    if symtab[sym].Hashed() then
      attrs[sym].dynIndex != 0 && Points(gotRels, SlotOffset(k), R_386_GLOB_DAT, attrs[sym].dynIndex)
    else
      Points(gotRels, SlotOffset(k), R_386_RELATIVE, sym)
  }

  ghost predicate AddressesCome(gotRels: seq<Rel>, attrs: seq<SymAttr>, symtab: seq<Sym>, slots: seq<Owner>) {
    forall k :: 0 <= k < |slots| && !slots[k].plt ==> AddressComes(gotRels, attrs, symtab, slots[k].sym, k)
  }

  /** No two relocations are for the same slot. */
  ghost predicate Once(pltRels: seq<Rel>, gotRels: seq<Rel>, size: nat) {
    (forall i :: 0 <= i < |pltRels| ==> pltRels[i].offset < size) &&
    (forall i :: 0 <= i < |gotRels| ==> gotRels[i].offset < size) &&
    (forall i, j :: 0 <= i < j < |pltRels| ==> pltRels[i].offset != pltRels[j].offset) &&
    (forall i, j :: 0 <= i < j < |gotRels| ==> gotRels[i].offset != gotRels[j].offset) &&
    (forall i, j :: 0 <= i < |pltRels| && 0 <= j < |gotRels| ==> pltRels[i].offset != gotRels[j].offset)
  }

  lemma OnceMore(pltRels: seq<Rel>, gotRels: seq<Rel>, size: nat, plt: bool, r: Rel)
    requires Once(pltRels, gotRels, size) && r.offset == size
    ensures Once(More(pltRels, plt, r), More(gotRels, !plt, r), size + 4)
  {
  }

  lemma PointsMore(rels: seq<Rel>, longer: seq<Rel>, offset: nat, t: nat, sym: nat)
    requires Points(rels, offset, t, sym) && rels <= longer
    ensures Points(longer, offset, t, sym)
  {
    hide RSym, RType;
    var i :| 0 <= i < |rels| && rels[i].offset == offset && RType(rels[i].info) == t &&
      RSym(rels[i].info) == sym % SYM_LIMIT;
    assert longer[i] == rels[i];
  }

  /** What comes to the slots that are there survives growth of the tables. */
  lemma AddressesGrow(rels: seq<Rel>, rels': seq<Rel>, attrs: seq<SymAttr>, attrs': seq<SymAttr>, symtab: seq<Sym>,
                      symtab': seq<Sym>, slots: seq<Owner>)
    requires AddressesCome(rels, attrs, symtab, slots)
    requires rels <= rels' && |attrs| <= |attrs'| && symtab <= symtab'
    requires forall i :: 0 <= i < |attrs| && attrs[i].dynIndex != 0 ==> attrs'[i].dynIndex == attrs[i].dynIndex
    ensures AddressesCome(rels', attrs', symtab', slots)
  {
    hide Points;
    forall k | 0 <= k < |slots| && !slots[k].plt ensures AddressComes(rels', attrs', symtab', slots[k].sym, k) {
      var i := slots[k].sym;
      assert AddressComes(rels, attrs, symtab, i, k) && symtab'[i] == symtab[i];
      if symtab[i].Hashed() {
        PointsMore(rels, rels', SlotOffset(k), R_386_GLOB_DAT, attrs[i].dynIndex);
      } else {
        PointsMore(rels, rels', SlotOffset(k), R_386_RELATIVE, i);
      }
    }
  }

  /** The relocation of a new slot brings the address of its symbol. */
  lemma AddressNew(rels: seq<Rel>, attrs: seq<SymAttr>, symtab: seq<Sym>, slots: seq<Owner>, sym: nat, r: Rel)
    requires AddressesCome(rels, attrs, symtab, slots) && sym < |attrs| && sym < |symtab| && r in rels
    requires r.offset == SlotOffset(|slots|) && (symtab[sym].Hashed() ==> attrs[sym].dynIndex != 0)
    requires RType(r.info) == if symtab[sym].Hashed() then R_386_GLOB_DAT else R_386_RELATIVE
    requires RSym(r.info) == (if symtab[sym].Hashed() then attrs[sym].dynIndex else sym) % SYM_LIMIT
    ensures AddressesCome(rels, attrs, symtab, slots + [Owner(sym, false)])
  {
    hide RSym, RType;
    var i :| 0 <= i < |rels| && rels[i] == r;
    var slots' := slots + [Owner(sym, false)];
    forall k | 0 <= k < |slots'| && !slots'[k].plt ensures AddressComes(rels, attrs, symtab, slots'[k].sym, k) {
      if k < |slots| {
        assert AddressComes(rels, attrs, symtab, slots[k].sym, k);
      } else {
        assert Points(rels, SlotOffset(k), RType(r.info), if symtab[sym].Hashed() then attrs[sym].dynIndex else sym);
      }
    }
  }

  lemma AddressPlt(rels: seq<Rel>, attrs: seq<SymAttr>, symtab: seq<Sym>, slots: seq<Owner>, sym: nat)
    requires AddressesCome(rels, attrs, symtab, slots)
    ensures AddressesCome(rels, attrs, symtab, slots + [Owner(sym, true)])
  {
    var slots' := slots + [Owner(sym, true)];
    hide AddressComes;
    forall k | 0 <= k < |slots'| && !slots'[k].plt ensures AddressComes(rels, attrs, symtab, slots'[k].sym, k) {
      assert k < |slots|;
      assert AddressComes(rels, attrs, symtab, slots[k].sym, k);
    }
  }

  /** The loader finds, by the relocation of a slot, the dynamic symbol of the name of the symbol the
      slot was made for. */
  lemma SlotNamesSymbol(gotRels: seq<Rel>, attrs: seq<SymAttr>, symtab: seq<Sym>, dynsym: seq<Sym>, slots: seq<Owner>,
                        k: nat) returns (i: nat)
    requires AddressesCome(gotRels, attrs, symtab, slots) && SameNames(attrs, symtab, dynsym)
    requires k < |slots| && !slots[k].plt && slots[k].sym < |symtab| && symtab[slots[k].sym].Hashed()
    requires slots[k].sym < |attrs| && attrs[slots[k].sym].dynIndex < SYM_LIMIT
    ensures i < |gotRels| && gotRels[i].offset == SlotOffset(k) && RType(gotRels[i].info) == R_386_GLOB_DAT
    ensures RSym(gotRels[i].info) < |dynsym| && dynsym[RSym(gotRels[i].info)].name == symtab[slots[k].sym].name
  {
    hide RSym, RType;
    assert AddressComes(gotRels, attrs, symtab, slots[k].sym, k);
    i :| 0 <= i < |gotRels| && gotRels[i].offset == SlotOffset(k) && RType(gotRels[i].info) == R_386_GLOB_DAT &&
      RSym(gotRels[i].info) == attrs[slots[k].sym].dynIndex % SYM_LIMIT;
  }

  lemma InsertNew(t: seq<Sym>, s: Sym, c: Context)
    ensures Find(t, s.name) == 0 ==> Insert(t, s, c).table == t + [s]
  {
  }

  lemma TableSizes(modrm: byte, got: seq<byte>, plt: seq<byte>, pltRels: seq<Rel>, gotRels: seq<Rel>,
                   attrs: seq<SymAttr>, slots: seq<Owner>, users: seq<nat>)
    requires Consistent(modrm, got, plt, pltRels, gotRels, attrs, slots, users)
    ensures |got| == SlotOffset(|slots|) && |pltRels| == |users|
    ensures |plt| == if users == [] then 0 else EntryOffset(|users|)
  {
  }

  /** A non-local symbol that was not in the dynamic symbol table has been put there. */
  ghost predicate Exported(was: seq<Sym>, now: seq<Sym>, sym: Sym, dynIndex: nat, context: Context) {
    now == if sym.Hashed() && dynIndex == 0 then Insert(was, sym.(other := 0), context).table else was
  }

  function More(rels: seq<Rel>, here: bool, r: Rel): seq<Rel> {
    if here then rels + [r] else rels
  }

  /** The relocation for the slot at offset of symbol index. */
  function SlotReloc(sym: Sym, index: nat, plt: bool, offset: nat, dynIndex: nat): (r: Rel)
    ensures r.offset == offset
  {
    Rel(offset, if plt then RInfo(dynIndex, R_386_JMP_SLOT)
                else if sym.Hashed() then RInfo(dynIndex, R_386_GLOB_DAT)
                else RInfo(index, R_386_RELATIVE))
  }

  lemma SlotRelocPlt(sym: Sym, index: nat, offset: nat, dynIndex: nat)
    ensures SlotReloc(sym, index, true, offset, dynIndex) == Rel(offset, RInfo(dynIndex, R_386_JMP_SLOT))
  {
  }

  /** The symbol of each PLT entry is at the entry, and has its function's name with "@plt". */
  ghost predicate PltNamed(attrs: seq<SymAttr>, symtab: seq<Sym>, pltSection: nat) {
    forall i :: 0 <= i < |attrs| && attrs[i].pltOffset != 0 ==>
      i < |symtab| && attrs[i].pltSym < |symtab| &&
      NamesEntry(symtab[attrs[i].pltSym], symtab[i].name, attrs[i].pltOffset, pltSection)
  }

  ghost predicate NamesEntry(s: Sym, name: Name, offset: nat, pltSection: nat) {
    s.value == offset && s.size == 0 && s.other == 0 && s.shndx == pltSection && Bind(s.info) == STB_GLOBAL &&
      Type(s.info) == STT_FUNC &&
    (|name| <= 195 ==> s.name == name + [0x40, 0x70, 0x6c, 0x74])
  }

  lemma PltNamedMore(attrs: seq<SymAttr>, attrs': seq<SymAttr>, symtab: seq<Sym>, symtab': seq<Sym>, pltSection: nat,
                     index: nat)
    requires PltNamed(attrs, symtab, pltSection) && |attrs| <= |attrs'| && index < |symtab| && symtab <= symtab'
    requires forall i :: 0 <= i < |attrs'| && i != index ==>
      attrs'[i].pltOffset == (if i < |attrs| then attrs[i].pltOffset else 0)
    requires forall i :: 0 <= i < |attrs| && i != index ==> attrs'[i].pltSym == attrs[i].pltSym
    requires index < |attrs'| && attrs'[index].pltOffset != 0 ==>
      attrs'[index].pltSym < |symtab'| &&
      NamesEntry(symtab'[attrs'[index].pltSym], symtab[index].name, attrs'[index].pltOffset, pltSection)
    ensures PltNamed(attrs', symtab', pltSection)
  {
    hide NamesEntry;
  }

  lemma PltNamedGrow(was: seq<SymAttr>, attrs: seq<SymAttr>, symtab: seq<Sym>, pltSection: nat)
    requires PltNamed(was, symtab, pltSection) && |was| <= |attrs|
    requires forall i :: 0 <= i < |attrs| ==> attrs[i] == if i < |was| then was[i] else NO_ATTR
    ensures PltNamed(attrs, symtab, pltSection)
  {
    hide NamesEntry;
  }

  lemma PltNamedOld(attrs: seq<SymAttr>, symtab: seq<Sym>, pltSection: nat, index: nat)
    requires PltNamed(attrs, symtab, pltSection) && index < |attrs| && attrs[index].pltOffset != 0
    ensures index < |symtab| && attrs[index].pltSym < |symtab|
    ensures NamesEntry(symtab[attrs[index].pltSym], symtab[index].name, attrs[index].pltOffset, pltSection)
  {
  }

  /** A symbol whose name is new in the dynamic symbol table is put there as it is, without its
      visibility. */
  lemma ExportedNew(was: seq<Sym>, now: seq<Sym>, sym: Sym, context: Context)
    requires Exported(was, now, sym, 0, context) && sym.Hashed() && Find(was, sym.name) == 0
    ensures now == was + [Sym(sym.name, sym.value, sym.size, sym.info, 0, sym.shndx)]
  {
  }

  /** The relocation of a new slot keeps what the relocations say. */
  lemma SlotRelocated(pltRels: seq<Rel>, gotRels: seq<Rel>, attrs: seq<SymAttr>, attrs': seq<SymAttr>, symtab: seq<Sym>,
                      symtab': seq<Sym>, slots: seq<Owner>, sym: nat, plt: bool, offset: nat)
    requires AddressesCome(gotRels, attrs, symtab, slots) && Once(pltRels, gotRels, offset)
    requires |attrs| <= |attrs'| && symtab <= symtab' && sym < |attrs'| && sym < |symtab|
    requires forall i :: 0 <= i < |attrs| && attrs[i].dynIndex != 0 ==> attrs'[i].dynIndex == attrs[i].dynIndex
    requires offset == SlotOffset(|slots|) && (symtab[sym].Hashed() ==> attrs'[sym].dynIndex != 0)
    ensures var r := SlotReloc(symtab[sym], sym, plt, offset, attrs'[sym].dynIndex);
      AddressesCome(More(gotRels, !plt, r), attrs', symtab', slots + [Owner(sym, plt)]) &&
      Once(More(pltRels, plt, r), More(gotRels, !plt, r), offset + 4)
  {
    hide Points, AddressesCome, Once, RSym, RType;
    var r := SlotReloc(symtab[sym], sym, plt, offset, attrs'[sym].dynIndex);
    var rels := More(gotRels, !plt, r);
    OnceMore(pltRels, gotRels, offset, plt, r);
    AddressesGrow(gotRels, rels, attrs, attrs', symtab, symtab', slots);
    if plt {
      AddressPlt(rels, attrs', symtab', slots, sym);
    } else {
      assert rels[|gotRels|] == r && symtab'[sym] == symtab[sym];
      AddressNew(rels, attrs', symtab', slots, sym, r);
    }
  }

  /** All that is kept, with who asked for each slot and entry. */
  datatype Tables = Tables(got: seq<byte>, plt: seq<byte>, pltRels: seq<Rel>, gotRels: seq<Rel>, attrs: seq<SymAttr>,
                           symtab: seq<Sym>, dynsym: seq<Sym>, slots: seq<Owner>, users: seq<nat>)

  ghost predicate Whole(t: Tables, modrm: byte, pltSection: nat) {
    Consistent(modrm, t.got, t.plt, t.pltRels, t.gotRels, t.attrs, t.slots, t.users) && |t.dynsym| > 0 &&
    (t.plt != [] ==> modrm + 0x10 < 256 && Plt0(modrm) <= t.plt) && SameNames(t.attrs, t.symtab, t.dynsym) &&
    AddressesCome(t.gotRels, t.attrs, t.symtab, t.slots) && Once(t.pltRels, t.gotRels, |t.got|) &&
    PltNamed(t.attrs, t.symtab, pltSection)
  }

  lemma WholeParts(t: Tables, modrm: byte, pltSection: nat)
    requires Whole(t, modrm, pltSection)
    ensures |t.got| == SlotOffset(|t.slots|) && |t.pltRels| == |t.users|
    ensures |t.plt| == if t.users == [] then 0 else EntryOffset(|t.users|)
    ensures SameNames(t.attrs, t.symtab, t.dynsym) && |t.dynsym| > 0
    ensures t.plt != [] ==> modrm + 0x10 < 256 && Plt0(modrm) <= t.plt
  {
    TableSizes(modrm, t.got, t.plt, t.pltRels, t.gotRels, t.attrs, t.slots, t.users);
    hide Consistent, AddressesCome, Once, PltNamed, SameNames, Plt0;
  }

  /** The tables after a slot for an address. */
  lemma AddressWhole(t: Tables, u: Tables, modrm: byte, pltSection: nat, i: nat, names: seq<SymAttr>)
    requires Whole(t, modrm, pltSection) && i < |t.attrs| && i < |t.symtab| && t.attrs[i].gotOffset == 0
    requires |u.attrs| == |t.attrs| && names == t.attrs[i := t.attrs[i].(dynIndex := u.attrs[i].dynIndex)]
    requires SameNames(names, t.symtab, u.dynsym) && |u.dynsym| > 0
    requires t.attrs[i].dynIndex != 0 ==> u.attrs[i].dynIndex == t.attrs[i].dynIndex
    requires t.symtab[i].Hashed() ==> u.attrs[i].dynIndex != 0
    requires u.attrs == t.attrs[i := t.attrs[i].(gotOffset := |t.got|, dynIndex := u.attrs[i].dynIndex)]
    requires u == t.(got := t.got + [0, 0, 0, 0], attrs := u.attrs, dynsym := u.dynsym,
      slots := t.slots + [Owner(i, false)],
      gotRels := t.gotRels + [SlotReloc(t.symtab[i], i, false, |t.got|, u.attrs[i].dynIndex)])
    ensures Whole(u, modrm, pltSection)
  {
    WholeParts(t, modrm, pltSection);
    hide Consistent, AddressesCome, Once, PltNamed, SameNames, Plt0, SlotReloc, NamesEntry;
    var r := SlotReloc(t.symtab[i], i, false, |t.got|, u.attrs[i].dynIndex);
    SlotAdded(modrm, t.got, t.plt, t.pltRels, t.gotRels, t.attrs, t.slots, t.users, i, r, u.attrs[i]);
    NamesGrow(names, u.attrs, t.symtab, u.symtab, u.dynsym);
    SlotRelocated(t.pltRels, t.gotRels, t.attrs, u.attrs, t.symtab, u.symtab, t.slots, i, false, |t.got|);
    if t.attrs[i].pltOffset != 0 {
      PltNamedOld(t.attrs, t.symtab, pltSection, i);
    }
    PltNamedMore(t.attrs, u.attrs, t.symtab, u.symtab, pltSection, i);
  }

  /** The tables after a PLT entry with its slot. */
  lemma EntryWhole(t: Tables, u: Tables, modrm: byte, pltSection: nat, i: nat, names: seq<SymAttr>)
    requires Whole(t, modrm, pltSection) && i < |t.attrs| && i < |t.symtab| && t.attrs[i].pltOffset == 0
    requires |u.attrs| == |t.attrs| && names == t.attrs[i := t.attrs[i].(dynIndex := u.attrs[i].dynIndex)]
    requires SameNames(names, t.symtab, u.dynsym) && |u.dynsym| > 0
    requires t.attrs[i].dynIndex != 0 ==> u.attrs[i].dynIndex == t.attrs[i].dynIndex
    requires t.symtab[i].Hashed() && u.attrs[i].dynIndex != 0 && u.attrs[i].pltOffset == EntryOffset(|t.users|)
    requires u.attrs == t.attrs[i := u.attrs[i]] && u.attrs[i].gotOffset == t.attrs[i].gotOffset
    requires u == t.(got := t.got + [0, 0, 0, 0], plt := u.plt, attrs := u.attrs, symtab := u.symtab,
      dynsym := u.dynsym,
      slots := t.slots + [Owner(i, true)], users := t.users + [i],
      pltRels := t.pltRels + [SlotReloc(t.symtab[i], i, true, |t.got|, u.attrs[i].dynIndex)])
    requires t.plt <= u.plt && modrm + 0x10 < 256 && Plt0(modrm) <= u.plt && |u.plt| == EntryOffset(|u.users|)
    requires u.plt[u.attrs[i].pltOffset..] == PltEntry(modrm, |t.got|, REL_SIZE * |t.pltRels|, |u.plt|)
    requires |u.symtab| == |t.symtab| + 1 && t.symtab <= u.symtab && u.attrs[i].pltSym == |t.symtab|
    requires NamesEntry(u.symtab[|t.symtab|], t.symtab[i].name, u.attrs[i].pltOffset, pltSection)
    ensures Whole(u, modrm, pltSection)
  {
    WholeParts(t, modrm, pltSection);
    hide Consistent, AddressesCome, Once, PltNamed, SameNames, Plt0, PltEntry, SlotReloc, NamesEntry;
    var r := SlotReloc(t.symtab[i], i, true, |t.got|, u.attrs[i].dynIndex);
    SlotRelocPlt(t.symtab[i], i, |t.got|, u.attrs[i].dynIndex);
    EntryAdded(modrm, t.got, t.plt, u.plt, t.pltRels, t.gotRels, t.attrs, t.slots, t.users, i, r, u.attrs[i]);
    NamesGrow(names, u.attrs, t.symtab, u.symtab, u.dynsym);
    SlotRelocated(t.pltRels, t.gotRels, t.attrs, u.attrs, t.symtab, u.symtab, t.slots, i, true, |t.got|);
    PltNamedMore(t.attrs, u.attrs, t.symtab, u.symtab, pltSection, i);
  }

  /** The tables after the attributes have grown. */
  lemma AttrsWhole(t: Tables, u: Tables, modrm: byte, pltSection: nat)
    requires Whole(t, modrm, pltSection) && u == t.(attrs := u.attrs) && |t.attrs| <= |u.attrs|
    requires forall i :: 0 <= i < |u.attrs| ==> u.attrs[i] == if i < |t.attrs| then t.attrs[i] else NO_ATTR
    ensures Whole(u, modrm, pltSection)
  {
    hide Consistent, AddressesCome, Once, PltNamed, Plt0;
    AttrsGrow(modrm, t.got, t.plt, t.pltRels, t.gotRels, t.attrs, u.attrs, t.slots, t.users);
    AddressesGrow(t.gotRels, t.gotRels, t.attrs, u.attrs, t.symtab, t.symtab, t.slots);
    PltNamedGrow(t.attrs, u.attrs, t.symtab, pltSection);
  }

  class Linker {
    var got: seq<byte>
    var plt: seq<byte>
    var pltRels: seq<Rel>       // s1->plt->reloc
    var gotRels: seq<Rel>       // s1->got->reloc
    var attrs: seq<SymAttr>
    var symtab: seq<Sym>
    var dynsym: seq<Sym>
    const gotSym: nat           // the symbol of the GOT itself
    const dyn: bool             // the output is relocated when loaded
    const pltSection: nat
    const context: Context
    ghost var slots: seq<Owner>
    ghost var users: seq<nat>

    function Modrm(): byte {
      JumpModrm(dyn)
    }

    ghost predicate Valid()
      reads this
    {
      Whole(Now(), Modrm(), pltSection)
    }

    ghost function Now(): Tables
      reads this
    {
      Tables(got, plt, pltRels, gotRels, attrs, symtab, dynsym, slots, users)
    }

    /** build_got: the head of the GOT is reserved, and a symbol names it. The dynamic symbol table
        exists, and may already hold some of the symbols. */
    constructor (dyn: bool, pltSection: nat, gotSection: nat, context: Context, symtab: seq<Sym>, dynsym: seq<Sym>,
                 attrs: seq<SymAttr>)
      requires |symtab| > 0 && |dynsym| > 0 && SameNames(attrs, symtab, dynsym)
      requires forall i :: 0 <= i < |attrs| ==> attrs[i].gotOffset == 0 && attrs[i].pltOffset == 0
      ensures Valid() && got == seq(GOT_HEADER, _ => 0) && plt == [] && pltRels == [] && gotRels == []
      ensures this.dyn == dyn && this.pltSection == pltSection && this.context == context
      ensures var r := Insert(symtab, GotSymbol(gotSection), context);
        this.symtab == r.table && gotSym == r.index && gotSym != 0 && this.symtab[gotSym].name == GOT_NAME
      ensures Find(symtab, GOT_NAME) == 0 ==>
        this.symtab == symtab + [Sym(GOT_NAME, 0, 0, Info(STB_GLOBAL, STT_OBJECT), 0, gotSection)]
      ensures this.dynsym == dynsym && this.attrs == attrs && slots == [] && users == []
    {
      InsertNew(symtab, GotSymbol(gotSection), context);
      hide Insert;
      InsertNames(symtab, GotSymbol(gotSection), context);
      var r := Insert(symtab, GotSymbol(gotSection), context);
      this.dyn, this.pltSection, this.context, this.symtab, this.dynsym := dyn, pltSection, context, r.table, dynsym;
      this.attrs, got, plt, pltRels, gotRels := attrs, seq(GOT_HEADER, _ => 0), [], [], [];
      slots, users, gotSym := [], [], r.index;
    }

    /** The least power of two above index. */
    static method NextPower(index: nat) returns (n: nat)
      ensures n > index && PowerOfTwo(n) && (n == 1 || n / 2 <= index)
    {
      hide PowerOfTwo;
      n := 1;
      PowerOfOne();
      while index >= n
        invariant n >= 1 && PowerOfTwo(n) && (n == 1 || n / 2 <= index)
        decreases index - n
      {
        PowerDoubles(n);
        n := n * 2;
      }
    }

    /** get_sym_attr with allocation: the table grows to the next power of two. */
    method GetSymAttr(index: nat)
      requires Valid()
      modifies `attrs
      ensures Valid() && index < |attrs| && |old(attrs)| <= |attrs|
      ensures forall i :: 0 <= i < |attrs| ==> attrs[i] == if i < |old(attrs)| then old(attrs)[i] else NO_ATTR
      ensures index < |old(attrs)| ==> attrs == old(attrs)
      ensures index >= |old(attrs)| ==> PowerOfTwo(|attrs|) && (|attrs| == 1 || |attrs| / 2 <= index)
    {
      hide PowerOfTwo, Whole;
      if index >= |attrs| {
        ghost var was := Now();
        var n := NextPower(index);
        var old' := attrs;
        attrs := seq(n, i requires 0 <= i => if i < |old'| then old'[i] else NO_ATTR);
        AttrsWhole(was, Now(), Modrm(), pltSection);
      }
    }

    /** The PLT after create_plt_entry: the first call also makes the entry all others branch to. */
    ghost function Grown(plt: seq<byte>, gotOffset: nat, rels: nat): seq<byte> {
      var head := if plt == [] then Plt0(Modrm()) else plt;
      head + PltEntry(Modrm(), gotOffset, REL_SIZE * rels - REL_SIZE, |head| + ENTRY)
    }

    lemma GrownParts(was: seq<byte>, gotOffset: nat, rels: nat)
      requires rels > 0 && (was != [] ==> Plt0(Modrm()) <= was)
      ensures var p := Grown(was, gotOffset, rels);
        var start := if was == [] then ENTRY else |was|;
        was <= p && Plt0(Modrm()) <= p && |p| == start + ENTRY &&
        p[start..] == PltEntry(Modrm(), gotOffset, REL_SIZE * (rels - 1), |p|)
    {
      hide PltEntry, Plt0;
    }

    method CreatePltEntry(gotOffset: nat) returns (offset: nat)
      modifies `plt
      ensures plt == Grown(old(plt), gotOffset, |pltRels|)
      ensures offset == if old(plt) == [] then ENTRY else |old(plt)|
    {
      var modrm := Modrm();
      if plt == [] {
        plt := [0xff, modrm + 0x10] + Le32(4) + [0xff, modrm] + Le32(8) + [0, 0, 0, 0];
      }
      offset := |plt|;
      var relOffset := REL_SIZE * |pltRels|;
      var end: int := offset + ENTRY;
      plt := plt + ([0xff, modrm] + Le32(gotOffset) + [0x68] + Le32(relOffset - REL_SIZE) + [0xe9] + Le32(-end));
    }

    /** The symbol may have an entry of this kind already. */
    predicate Has(index: nat, plt: bool)
      reads this
    {
      index < |attrs| && (if plt then attrs[index].pltOffset != 0 else attrs[index].gotOffset != 0)
    }

    /** The relocation of a new slot: against the dynamic symbol, which is made if need be. */
    method PutRelocation(index: nat, plt: bool, offset: nat)
      requires index < |attrs| && index < |symtab| && |dynsym| > 0 && SameNames(attrs, symtab, dynsym)
      requires plt ==> symtab[index].Hashed()
      modifies `attrs, `dynsym, `pltRels, `gotRels
      ensures |dynsym| > 0 && SameNames(attrs, symtab, dynsym) && |attrs| == |old(attrs)|
      ensures attrs == old(attrs)[index := old(attrs)[index].(dynIndex := attrs[index].dynIndex)]
      ensures symtab[index].Hashed() ==> attrs[index].dynIndex != 0
      ensures old(attrs)[index].dynIndex != 0 ==> attrs[index].dynIndex == old(attrs)[index].dynIndex
      ensures Exported(old(dynsym), dynsym, old(symtab)[index], old(attrs)[index].dynIndex, context)
      ensures var r := SlotReloc(old(symtab)[index], index, plt, offset, attrs[index].dynIndex);
        pltRels == More(old(pltRels), plt, r) && gotRels == More(old(gotRels), !plt, r)
    {
      hide Insert;
      var a, sym := attrs[index], symtab[index];
      if !sym.Hashed() {
        gotRels := gotRels + [Rel(offset, RInfo(index, R_386_RELATIVE))];
      } else {
        if a.dynIndex == 0 {
          InsertNames(dynsym, sym.(other := 0), context);
          var r := Insert(dynsym, sym.(other := 0), context);
          dynsym := r.table;
          attrs := attrs[index := a.(dynIndex := r.index)];
        }
        if plt {
          pltRels := pltRels + [Rel(offset, RInfo(attrs[index].dynIndex, R_386_JMP_SLOT))];
        } else {
          gotRels := gotRels + [Rel(offset, RInfo(attrs[index].dynIndex, R_386_GLOB_DAT))];
        }
      }
    }

    /** The PLT entry of a symbol, and the symbol that names the entry. */
    method AddPltEntry(index: nat, slot: nat)
      requires index < |attrs| && index < |symtab|
      modifies `plt, `attrs, `symtab
      ensures plt == Grown(old(plt), slot, |pltRels|)
      ensures |attrs| == |old(attrs)|
      ensures attrs[index].pltOffset == if old(plt) == [] then ENTRY else |old(plt)|
      ensures var offset := attrs[index].pltOffset;
        attrs == old(attrs)[index := old(attrs)[index].(pltOffset := offset, pltSym := |old(symtab)|)]
      ensures symtab == old(symtab) + [PltSymbol(old(symtab)[index].name, attrs[index].pltOffset)]
    {
      hide Plt0, PltEntry;
      var offset := CreatePltEntry(slot);
      attrs := attrs[index := attrs[index].(pltOffset := offset, pltSym := |symtab|)];
      symtab := symtab + [PltSymbol(symtab[index].name, offset)];
    }

    function PltSymbol(name: Name, offset: nat): Sym {
      Sym(PltName(name), offset, 0, Info(STB_GLOBAL, STT_FUNC), 0, pltSection)
    }

    lemma PltSymbolNames(name: Name, offset: nat)
      ensures NamesEntry(PltSymbol(name, offset), name, offset, pltSection)
    {
    }

    /** A slot for a symbol that has none of this kind. */
    method AddSlot(index: nat, plt: bool)
      requires Valid() && index < |symtab| && index < |attrs| && !Has(index, plt)
      requires plt ==> symtab[index].Hashed()
      modifies this
      ensures Valid() && Has(index, plt) && |attrs| == |old(attrs)|
      ensures slots == old(slots) + [Owner(index, plt)] && users == old(users) + (if plt then [index] else [])
      ensures got == old(got) + [0, 0, 0, 0]
      ensures forall i :: 0 <= i < |attrs| && i != index ==> attrs[i] == old(attrs)[i]
      ensures old(this.plt) <= this.plt && (!plt ==> this.plt == old(this.plt))
      ensures symtab == old(symtab) + (if plt then [PltSymbol(old(symtab)[index].name, attrs[index].pltOffset)] else [])
      ensures plt ==> attrs[index].pltSym == |old(symtab)|
      ensures Exported(old(dynsym), dynsym, old(symtab)[index], old(attrs)[index].dynIndex, context)
      ensures var r := SlotReloc(old(symtab)[index], index, plt, SlotOffset(|old(slots)|), attrs[index].dynIndex);
        pltRels == More(old(pltRels), plt, r) && gotRels == More(old(gotRels), !plt, r)
    {
      hide Whole, PltEntry, Plt0, Exported, PltName, Info, SameNames, SlotReloc, Grown, NamesEntry, JumpModrm;
      ghost var t := Now();
      WholeParts(t, Modrm(), pltSection);
      var offset := |got|;
      got := got + [0, 0, 0, 0];
      PutRelocation(index, plt, offset);
      ghost var names := attrs;
      slots := slots + [Owner(index, plt)];
      if plt {
        AddPltEntry(index, offset);
        users := users + [index];
        GrownParts(t.plt, offset, |pltRels|);
        PltSymbolNames(t.symtab[index].name, attrs[index].pltOffset);
        EntryWhole(t, Now(), Modrm(), pltSection, index, names);
      } else {
        attrs := attrs[index := attrs[index].(gotOffset := offset)];
        AddressWhole(t, Now(), Modrm(), pltSection, index, names);
      }
    }

    /** A symbol gets one slot of each kind at most, with one relocation; a local symbol's is
        marked by its type, and names the symbol in the symbol table. */
    method PutGotEntry(index: nat, plt: bool)
      requires Valid() && index < |symtab|
      requires plt ==> symtab[index].Hashed()
      modifies this
      ensures Valid() && Has(index, plt)
      ensures old(Has(index, plt)) ==> slots == old(slots) && users == old(users) && got == old(got)
      ensures old(Has(index, plt)) ==> this.plt == old(this.plt) && symtab == old(symtab) && dynsym == old(dynsym)
      ensures old(Has(index, plt)) ==> pltRels == old(pltRels) && gotRels == old(gotRels) && attrs == old(attrs)
      ensures forall i :: 0 <= i < |attrs| && i != index ==>
        attrs[i] == if i < |old(attrs)| then old(attrs)[i] else NO_ATTR
      ensures !old(Has(index, plt)) ==> slots == old(slots) + [Owner(index, plt)] && got == old(got) + [0, 0, 0, 0]
      ensures !old(Has(index, plt)) ==> users == old(users) + (if plt then [index] else [])
      ensures old(this.plt) <= this.plt && (!plt ==> this.plt == old(this.plt))
      ensures !old(Has(index, plt)) ==>
        symtab == old(symtab) + (if plt then [PltSymbol(old(symtab)[index].name, attrs[index].pltOffset)] else [])
      ensures !old(Has(index, plt)) && plt ==> attrs[index].pltSym == |old(symtab)|
      ensures !old(Has(index, plt)) ==>
        var dynIndex := if index < |old(attrs)| then old(attrs)[index].dynIndex else 0;
        Exported(old(dynsym), dynsym, old(symtab)[index], dynIndex, context)
      ensures !old(Has(index, plt)) ==>
        var r := SlotReloc(old(symtab)[index], index, plt, SlotOffset(|old(slots)|), attrs[index].dynIndex);
        pltRels == More(old(pltRels), plt, r) && gotRels == More(old(gotRels), !plt, r)
    {
      hide Whole, SlotReloc, Exported, PltEntry, Plt0, PltName, Info;
      GetSymAttr(index);
      if !Has(index, plt) {
        AddSlot(index, plt);
      }
    }

    /** The addresses in a non-empty PLT are shifted by the GOT's. */
    method RebasePlt(base: nat)
      requires |plt| >= ENTRY && |plt| % ENTRY == 0
      modifies `plt
      ensures Rebased(old(plt), plt, base, |old(plt)|)
    {
      hide Read32, Put32, Wrap32, Rebased;
      ghost var was := plt;
      RebaseHead(plt, base);
      plt := Put32(plt, 2, Read32(plt, 2) + base);
      plt := Put32(plt, 8, Read32(plt, 8) + base);
      var p := ENTRY;
      while p < |plt|
        invariant ENTRY <= p <= |plt| == |was| && p % ENTRY == 0 && |was| % ENTRY == 0
        invariant Rebased(was, plt, base, p)
      {
        RebaseStep(was, plt, base, p);
        plt := Put32(plt, p + 2, Read32(plt, p + 2) + base);
        p := p + ENTRY;
      }
    }

    /** Each PLT relocation's slot gets the address of the push of the entry of the same number. */
    method FillSlots(pltAddr: nat)
      requires forall j :: 0 <= j < |pltRels| ==> pltRels[j].offset + 4 <= |got|
      requires forall i, j :: 0 <= i < j < |pltRels| ==> Apart(pltRels[i].offset, pltRels[j].offset)
      modifies `got
      ensures SlotsFilled(old(got), got, pltRels, pltAddr, |pltRels|)
    {
      hide Read32, Put32, Wrap32;
      ghost var was := got;
      var j, x := 0, pltAddr + ENTRY + 6;
      while j < |pltRels|
        invariant 0 <= j <= |pltRels| && x == pltAddr + EntryOffset(j) + 6
        invariant SlotsFilled(was, got, pltRels, pltAddr, j)
      {
        FillStep(was, got, pltRels, pltAddr, j);
        got := Put32(got, pltRels[j].offset, x);
        j, x := j + 1, x + ENTRY;
      }
    }

    /** relocate_plt: the addresses in the PLT become final, and the slot of each entry gets the
        address of that entry's push. No other byte of the GOT is changed. */
    method RelocatePlt(gotAddr: nat, pltAddr: nat)
      requires Valid()
      modifies `plt, `got
      ensures Meant(Modrm(), plt, pltRels, if dyn then 0 else gotAddr)
      ensures forall j :: 0 <= j < |pltRels| ==> pltRels[j].offset + 4 <= |old(got)|
      ensures SlotsFilled(old(got), got, pltRels, pltAddr, |pltRels|)
    {
      hide Consistent, Rebased, Plt0, SameNames, SlotsFilled, Meant, AddressesCome, Once, PltNamed;
      TableSizes(Modrm(), got, plt, pltRels, gotRels, attrs, slots, users);
      AllSlotsApart(Modrm(), got, plt, pltRels, gotRels, attrs, slots, users);
      AllMeant(Modrm(), got, plt, pltRels, gotRels, attrs, slots, users);
      if !dyn && plt != [] {
        ghost var was := plt;
        RebasePlt(gotAddr);
        AllRebased(Modrm(), was, plt, pltRels, gotAddr);
      } else if plt == [] {
        NoneMeant(Modrm(), pltRels, gotAddr);
      }
      FillSlots(pltAddr);
    }
  }

  /** What a PLT does: entry j jumps through the slot of relocation j, at base in the address space,
      or pushes that relocation's byte offset and goes to the head. */
  ghost predicate Meant(modrm: byte, plt: seq<byte>, rels: seq<Rel>, base: nat) {
    (plt != [] ==> HeadAt(plt, modrm, base)) &&
    |plt| == (if rels == [] then 0 else EntryOffset(|rels|)) &&
    forall j :: 0 <= j < |rels| ==> EntryAt(plt, EntryOffset(j), modrm, rels[j].offset + base, j)
  }

  lemma NoneMeant(modrm: byte, rels: seq<Rel>, base: nat)
    requires Meant(modrm, [], rels, 0)
    ensures Meant(modrm, [], rels, base)
  {
  }

  lemma AllMeant(modrm: byte, got: seq<byte>, plt: seq<byte>, pltRels: seq<Rel>, gotRels: seq<Rel>,
                 attrs: seq<SymAttr>, slots: seq<Owner>, users: seq<nat>)
    requires Consistent(modrm, got, plt, pltRels, gotRels, attrs, slots, users)
    requires modrm + 0x10 < 256 && (plt != [] ==> Plt0(modrm) <= plt)
    ensures Meant(modrm, plt, pltRels, 0)
  {
    hide EntryAt, HeadAt, Plt0;
    if plt != [] {
      HeadMeans(plt, modrm);
    }
    forall j | 0 <= j < |pltRels| ensures EntryAt(plt, EntryOffset(j), modrm, pltRels[j].offset + 0, j) {
      assert OwnsEntry(modrm, plt, pltRels, attrs, slots, users[j], j);
    }
  }

  lemma AllRebased(modrm: byte, was: seq<byte>, now: seq<byte>, rels: seq<Rel>, base: nat)
    requires Meant(modrm, was, rels, 0) && was != [] && Rebased(was, now, base, |was|)
    ensures Meant(modrm, now, rels, base)
  {
    hide EntryAt, HeadAt, Read32;
    HeadRebased(was, now, modrm, base);
    forall j | 0 <= j < |rels| ensures EntryAt(now, EntryOffset(j), modrm, rels[j].offset + base, j) {
      assert EntryAt(was, EntryOffset(j), modrm, rels[j].offset + 0, j);
      EntryRebased(was, now, base, modrm, rels[j].offset, j);
    }
  }

  lemma AllSlotsApart(modrm: byte, got: seq<byte>, plt: seq<byte>, pltRels: seq<Rel>, gotRels: seq<Rel>,
                      attrs: seq<SymAttr>, slots: seq<Owner>, users: seq<nat>)
    requires Consistent(modrm, got, plt, pltRels, gotRels, attrs, slots, users)
    ensures forall j :: 0 <= j < |pltRels| ==> pltRels[j].offset + 4 <= |got|
    ensures forall i, j :: 0 <= i < j < |pltRels| ==> Apart(pltRels[i].offset, pltRels[j].offset)
  {
    TableSizes(modrm, got, plt, pltRels, gotRels, attrs, slots, users);
    hide Consistent;
    forall j | 0 <= j < |pltRels| ensures pltRels[j].offset + 4 <= |got| {
      SlotsApart(modrm, got, plt, pltRels, gotRels, attrs, slots, users, j, j);
    }
    forall i, j | 0 <= i < j < |pltRels| ensures Apart(pltRels[i].offset, pltRels[j].offset) {
      SlotsApart(modrm, got, plt, pltRels, gotRels, attrs, slots, users, i, j);
    }
  }

  /** The address of the operand of a jump or push through memory, by its ModR/M byte: an absolute
      address, or one relative to ebx; -1 for the other forms. */
  function OperandAddress(modrm: byte, disp: nat, ebx: nat): int {
    if modrm / 64 == 0 && modrm % 8 == 5 then disp
    else if modrm / 64 == 2 && modrm % 8 == 3 then Wrap32(ebx + disp)
    else -1
  }

  /** The operation of the byte 0xff: 4 jumps, 6 pushes. */
  function Operation(modrm: byte): nat {
    modrm / 8 % 8
  }

  lemma SlotAddressed(dyn: bool, offset: nat, gotAddr: nat, ebx: nat)
    requires gotAddr + offset < WORD && (dyn ==> ebx == gotAddr)
    ensures var disp := Wrap32(offset + (if dyn then 0 else gotAddr));
      OperandAddress(JumpModrm(dyn), disp, ebx) == OperandAddress(JumpModrm(dyn) + 0x10, disp, ebx) == gotAddr + offset
    ensures Operation(JumpModrm(dyn)) == 4 && Operation(JumpModrm(dyn) + 0x10) == 6
  {
  }

  /** A first call through entry j, with the loader's slots filled in and, in an output that is
      relocated when loaded, ebx at the GOT: the jump reads the slot of relocation j and lands on the
      entry's own push, which names the byte offset of relocation j. */
  lemma FirstCall(dyn: bool, plt: seq<byte>, was: seq<byte>, got: seq<byte>, rels: seq<Rel>, gotAddr: nat,
                  pltAddr: nat, ebx: nat, j: nat)
    requires forall i :: 0 <= i < |rels| ==> rels[i].offset + 4 <= |was|
    requires Meant(JumpModrm(dyn), plt, rels, if dyn then 0 else gotAddr) && (dyn ==> ebx == gotAddr)
    requires SlotsFilled(was, got, rels, pltAddr, |rels|) && j < |rels|
    requires gotAddr + |got| <= WORD && pltAddr + |plt| <= WORD && REL_SIZE * |rels| < WORD
    ensures EntryOffset(j) + ENTRY <= |plt|
    ensures var p := EntryOffset(j);
      var slot := OperandAddress(plt[p + 1], Read32(plt, p + 2), ebx);
      plt[p] == 0xff && Operation(plt[p + 1]) == 4 && slot == gotAddr + rels[j].offset &&
      rels[j].offset + 4 <= |got| && Read32(got, rels[j].offset) == pltAddr + p + 6
    ensures plt[EntryOffset(j) + 6] == 0x68 && Read32(plt, EntryOffset(j) + 7) == REL_SIZE * j
  {
    hide Read32, OperandAddress, JumpModrm, Operation;
    var p, base := EntryOffset(j), if dyn then 0 else gotAddr;
    assert EntryAt(plt, p, JumpModrm(dyn), rels[j].offset + base, j);
    assert Read32(got, rels[j].offset) == Wrap32(pltAddr + p + 6);
    assert |got| == |was|;
    SlotAddressed(dyn, rels[j].offset, gotAddr, ebx);
  }

  /** Where an entry branches to: the second word of the GOT is pushed, and the third jumped through. */
  lemma HeadCall(dyn: bool, plt: seq<byte>, rels: seq<Rel>, gotAddr: nat, ebx: nat)
    requires Meant(JumpModrm(dyn), plt, rels, if dyn then 0 else gotAddr) && plt != [] && (dyn ==> ebx == gotAddr)
    requires gotAddr + GOT_HEADER <= WORD
    ensures ENTRY <= |plt| && plt[0] == 0xff && plt[6] == 0xff && Operation(plt[1]) == 6 && Operation(plt[7]) == 4
    ensures OperandAddress(plt[1], Read32(plt, 2), ebx) == gotAddr + 4
    ensures OperandAddress(plt[7], Read32(plt, 8), ebx) == gotAddr + 8
  {
    hide Read32, OperandAddress, JumpModrm, Operation, EntryAt;
    SlotAddressed(dyn, 4, gotAddr, ebx);
    SlotAddressed(dyn, 8, gotAddr, ebx);
  }
}
