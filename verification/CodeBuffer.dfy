/** The code generator's output buffer and its pending jumps (i386-gen.c). */
module CodeBuffer {
  import opened Bits
  import opened Bytes
  import opened JumpChain

  /** The bytes o() emits for an opcode, least significant first. */
  function OpBytes(c: nat): seq<byte> {
    if c == 0 then [] else [c % 256] + OpBytes(c / 256)
  }

  lemma OpBytesLength(c: nat)
    requires 0 < c < WORD
    ensures 1 <= |OpBytes(c)| <= 4
  {
    OpBytesBound(c, 4);
  }

  lemma {:induction false} OpBytesBound(c: nat, k: nat)
    requires c < Pow256(k)
    ensures |OpBytes(c)| <= k
  {
    if c > 0 {
      OpBytesBound(c / 256, k - 1);
    }
  }

  function Pow256(k: nat): nat {
    if k == 0 then 1 else 256 * Pow256(k - 1)
  }

  lemma Le32Bytes(c: int)
    ensures Le32(c) == [c % 256, c / 256 % 256, c / 65536 % 256, c / 16777216 % 256]
  {
    FirstByte(c);
    SecondByte(c);
    ThirdByte(c);
    FourthByte(c);
    hide Wrap32;
  }

  lemma FirstByte(c: int)
    ensures c % 256 == Wrap32(c) % 256
  {
    hide Wrap32;
    WrapParts(c);
    var w: int := Wrap32(c);
    Quotient256(c, c / WORD * 16777216 + w / 256, w % 256);
  }

  lemma Quotient256(c: int, q: int, r: int)
    requires c == 256 * q + r && 0 <= r < 256
    ensures c / 256 == q && c % 256 == r
  {
  }

  lemma WrapParts(c: int)
    ensures c == c / WORD * WORD + Wrap32(c)
  {
  }

  lemma SecondByte(c: int)
    ensures c / 256 % 256 == Wrap32(c) / 256 % 256
  {
    hide Wrap32;
    WrapParts(c);
    var x, w: int := c / WORD * 65536, Wrap32(c);
    var h, low := w / 256, w % 256;
    Quotient256(c, 256 * x + h, low);
    Quotient256(256 * x + h, x + h / 256, h % 256);
  }

  lemma ThirdByte(c: int)
    ensures c / 65536 % 256 == Wrap32(c) / 65536 % 256
  {
    assert c / 65536 == Wrap32(c) / 65536 + c / WORD * 65536;
  }

  lemma FourthByte(c: int)
    ensures c / 16777216 % 256 == Wrap32(c) / 16777216
  {
    assert c / 16777216 == Wrap32(c) / 16777216 + c / WORD * 256;
  }

  class Code {
    var data: array<byte>    // cur_text_section->data
    var ind: nat             // output position
    var nocodeWanted: bool
    ghost var jumps: Jumps

    ghost predicate Valid()
      reads this, data
    {
      ind < INT_LIMIT && jumps.Wired(data[..], ind)
    }

    constructor ()
      ensures Valid() && ind == 0 && !nocodeWanted && jumps == Jumps({}, map[], map[], map[]) && fresh(data)
    {
      data := new byte[0];
      ind, nocodeWanted := 0, false;
      jumps := Jumps({}, map[], map[], map[]);
    }

    /** The size of the buffer: doubled until it suffices. */
    static method GrownSize(have: nat, newSize: nat) returns (size: nat)
      requires newSize > have
      ensures size >= newSize && IsDoubled(if have == 0 then 1 else have, size)
      ensures size == 1 || size / 2 < newSize
    {
      hide IsDoubled;
      size := if have == 0 then 1 else have;
      ghost var start := size;
      DoubledSame(size);
      while size < newSize
        invariant size >= 1 && IsDoubled(start, size) && (size == start || size / 2 < newSize)
      {
        DoubledNext(start, size);
        size := size * 2;
      }
    }

    /** section_realloc: the size doubles until it suffices, the new part is cleared. */
    method SectionRealloc(newSize: nat)
      requires newSize > data.Length
      modifies `data
      ensures fresh(data) && data.Length >= newSize
      ensures forall i :: 0 <= i < data.Length ==> data[i] == if i < old(data.Length) then old(data[i]) else 0
      ensures IsDoubled(if old(data.Length) == 0 then 1 else old(data.Length), data.Length)
      ensures data.Length == 1 || data.Length / 2 < newSize
    {
      hide IsDoubled;
      var size := GrownSize(data.Length, newSize);
      var was := data;
      var grown := new byte[size];
      for i := 0 to size
        invariant forall j :: 0 <= j < i ==> grown[j] == if j < was.Length then was[j] else 0
      {
        grown[i] := if i < was.Length then was[i] else 0;
      }
      data := grown;
    }

    /** g: one byte. */
    method G(c: int)
      requires Valid() && ind + 1 < INT_LIMIT
      modifies this, data
      ensures Valid() && jumps == old(jumps) && nocodeWanted == old(nocodeWanted)
      ensures data == old(data) || fresh(data)
      ensures nocodeWanted ==> ind == old(ind) && data == old(data) && data[..] == old(data[..])
      ensures !nocodeWanted ==> ind == old(ind) + 1 && data[..ind] == old(data[..ind]) + [c % 256]
    {
      if nocodeWanted {
        return;
      }
      ghost var s := data[..];
      var ind1 := ind + 1;
      if ind1 > data.Length {
        SectionRealloc(ind1);
      }
      data[ind] := c % 256;
      assert data[..ind] == s[..ind];
      WiredSamePrefix(jumps, s, data[..], ind, ind1);
      ind := ind1;
    }

    /** o: the bytes of an opcode. */
    method O(c: nat)
      requires Valid() && ind + |OpBytes(c)| < INT_LIMIT
      modifies this, data
      ensures Valid() && jumps == old(jumps) && nocodeWanted == old(nocodeWanted)
      ensures data == old(data) || fresh(data)
      ensures nocodeWanted ==> ind == old(ind) && data == old(data) && data[..] == old(data[..])
      ensures !nocodeWanted ==> ind == old(ind) + |OpBytes(c)| && data[..ind] == old(data[..ind]) + OpBytes(c)
    {
      var rest := c;
      ghost var done: seq<byte> := [];
      while rest != 0
        invariant Valid() && jumps == old(jumps) && nocodeWanted == old(nocodeWanted)
        invariant data == old(data) || fresh(data)
        invariant done + OpBytes(rest) == OpBytes(c)
        invariant nocodeWanted ==> ind == old(ind) && data == old(data) && data[..] == old(data[..])
        invariant !nocodeWanted ==> ind == old(ind) + |done| && data[..ind] == old(data[..ind]) + done
      {
        done := done + [rest % 256];
        G(rest);
        rest := rest / 256;
      }
    }

    /** gen_le32: four bytes. */
    method GenLe32(c: int)
      requires Valid() && ind + 4 < INT_LIMIT
      modifies this, data
      ensures Valid() && jumps == old(jumps) && nocodeWanted == old(nocodeWanted)
      ensures data == old(data) || fresh(data)
      ensures nocodeWanted ==> ind == old(ind) && data == old(data) && data[..] == old(data[..])
      ensures !nocodeWanted ==> ind == old(ind) + 4 && data[..ind] == old(data[..ind]) + Le32(c)
    {
      Le32Bytes(c);
      G(c);
      G(c / 256);
      G(c / 65536);
      G(c / 16777216);
    }

    /** oad: an opcode and a four-byte operand; the result is the place of the operand. */
    method Oad(c: nat, s: int) returns (t: int)
      requires Valid() && 0 < c < WORD && ind + 8 < INT_LIMIT
      modifies this, data
      ensures Valid() && jumps == old(jumps) && nocodeWanted == old(nocodeWanted)
      ensures data == old(data) || fresh(data)
      ensures nocodeWanted ==> t == s && ind == old(ind) && data == old(data) && data[..] == old(data[..])
      ensures !nocodeWanted ==>
        t == old(ind) + |OpBytes(c)| && ind == t + 4 && data[..ind] == old(data[..ind]) + OpBytes(c) + Le32(s)
    {
      if nocodeWanted {
        return s;
      }
      OpBytesLength(c);
      O(c);
      t := ind;
      GenLe32(s);
    }

    /** gjmp: a jump to a place not yet known joins the list t; the result heads the list. */
    method Gjmp(op: nat, t: nat) returns (r: nat)
      requires Valid() && 0 < op < WORD && ind + 8 < INT_LIMIT && (t == 0 || t in jumps.lists)
      modifies this, data
      ensures Valid() && nocodeWanted == old(nocodeWanted) && (data == old(data) || fresh(data))
      ensures nocodeWanted ==> r == t && ind == old(ind) && jumps == old(jumps) && data[..] == old(data[..])
      ensures !nocodeWanted ==>
        jumps == old(jumps).Cons(r, t) && jumps.lists[r] == [r] + old(jumps).List(t) &&
        ind == r + 4 && data[..r] == old(data[..ind]) + OpBytes(op)
    {
      hide OpBytes, Le32, Chain, Target, Jumps.Separate;
      OpBytesLength(op);
      HeadBelow(jumps, ind, t);
      r := Oad(op, t);
      if !nocodeWanted {
        Emitted(jumps, old(data[..]), data[..], old(ind), OpBytes(op), t);
        jumps := jumps.Cons(r, t);
      }
    }

    /** gjmp_cond: the two-byte form, 0f 8x. */
    method GjmpCond(op: nat, t: nat) returns (r: nat)
      requires Valid() && 16 < op < 256 && ind + 9 < INT_LIMIT && (t == 0 || t in jumps.lists)
      modifies this, data
      ensures Valid() && nocodeWanted == old(nocodeWanted) && (data == old(data) || fresh(data))
      ensures nocodeWanted ==> r == t && ind == old(ind) && jumps == old(jumps) && data[..] == old(data[..])
      ensures !nocodeWanted ==>
        jumps == old(jumps).Cons(r, t) && ind == r + 4 && data[..r] == old(data[..ind]) + [0x0f, op - 16]
    {
      assert OpBytes(op - 16) == [op - 16];
      hide OpBytes, Jumps.Wired, Jumps.Cons;
      G(0x0f);
      r := Gjmp(op - 16, t);
    }

    /** gjmp_append: the list t is hung behind the list n. */
    method GjmpAppend(n: nat, t: nat) returns (r: nat)
      requires Valid() && (n == 0 || (n in jumps.lists && n != t)) && (t == 0 || t in jumps.lists)
      modifies this`jumps, data
      ensures Valid() && (n == 0 ==> r == t && jumps == old(jumps) && data[..] == old(data[..]))
      ensures n != 0 ==> r == n && jumps == old(jumps).Append(n, t)
      ensures n != 0 ==> Chain(data[..], r, old(jumps).List(n) + old(jumps).List(t))
    {
      hide Chain, Target, Jumps.Separate, Read32, Put32;
      r := t;
      if n != 0 {
        ghost var s, front, k: nat := data[..], jumps.lists[n], 0;
        HeadBelow(jumps, ind, t);
        HeadBelow(jumps, ind, n);
        var n1 := n;
        ChainFields(jumps, s, ind, n);
        while Read32(data[..], n1) != 0
          invariant jumps == old(jumps) && k < |front| && n1 == front[k] && n1 + 4 <= |s| &&
            Chain(s, n1, front[k..]) && data[..] == s
          decreases |front| - k
        {
          ChainNext(s, front, k);
          n1 := Read32(data[..], n1);
          k := k + 1;
        }
        ChainNext(s, front, k);
        AppendWired(jumps, s, ind, n, t);
        Write32(data, n1, t);
        jumps := jumps.Append(n, t);
        r := n;
        assert jumps.lists[n] == front + old(jumps).List(t) && Chain(data[..], n, jumps.lists[n]);
      }
    }

    /** gsym_addr: every jump on the list t goes to a. */
    method GsymAddr(t: nat, a: int)
      requires Valid() && (t == 0 || t in jumps.lists)
      modifies this`jumps, data
      ensures Valid() && jumps == old(jumps).Resolve(t, Wrap32(a))
      ensures forall p :: p in old(jumps).List(t) ==> p + 4 <= data.Length && Target(data[..], p) == Wrap32(a)
      ensures forall x :: 0 <= x < data.Length && Outside(x, old(jumps).List(t)) ==> data[x] == old(data[x])
    {
      hide Read32, Target, Jumps.Separate, Put32;
      ghost var sites := jumps.List(t);
      ChainFields(jumps, data[..], ind, t);
      PatchList(data, t, a, sites);
      PatchAllTargets(old(data[..]), sites, a);
      ResolveWired(jumps, old(data[..]), ind, t, a);
      forall p | p in sites ensures p + 4 <= data.Length && Target(data[..], p) == Wrap32(a) {
        var i :| 0 <= i < |sites| && sites[i] == p;
      }
      jumps := jumps.Resolve(t, Wrap32(a));
    }
  }

  /** The loop of gsym_addr: each field is read before it is overwritten. */
  method PatchList(data: array<byte>, t: nat, a: int, ghost sites: seq<nat>)
    requires Chain(data[..], t, sites) && Fit(data[..], sites) && (t != 0 ==> sites != [] && sites[0] == t)
    requires forall i, k :: 0 <= i < k < |sites| ==> Apart(sites[i], sites[k])
    modifies data
    ensures data[..] == PatchAll(old(data[..]), sites, a)
  {
    hide Read32, Put32;
    ghost var s, k: nat := data[..], 0;
    var site := t;
    while site != 0
      invariant k <= |sites| && Chain(s, site, sites[k..]) && data[..] == PatchAll(s, sites[..k], a)
      decreases |sites| - k
    {
      assert sites[k..][0] == sites[k];
      ChainNext(s, sites, k);
      PatchedSoFar(s, sites, k, a);
      assert sites[..k + 1][..k] == sites[..k];
      var next := Read32(data[..], site);
      Write32(data, site, a - site - 4);
      site := next;
      k := k + 1;
    }
    assert sites[..k] == sites;
  }

  lemma HeadBelow(j: Jumps, ind: nat, t: nat)
    requires j.Separate(ind) && (t == 0 || t in j.lists)
    ensures t <= ind
  {
    if t != 0 {
      OnList(j, ind, t, 0);
    }
  }

  /** A jump instruction emitted at ind, with the head of the list t as its operand. */
  lemma Emitted(j: Jumps, was: seq<byte>, s: seq<byte>, ind: nat, op: seq<byte>, t: nat)
    requires ind <= |was| && j.Wired(was, ind) && |op| > 0 && (t == 0 || t in j.lists) && t < WORD
    requires ind + |op| + 4 <= |s| && s[..ind + |op| + 4] == was[..ind] + op + Le32(t)
    ensures j.Cons(ind + |op|, t).Wired(s, ind + |op| + 4)
    ensures s[..ind + |op|] == was[..ind] + op
  {
    hide Jumps.Wired, Jumps.Cons, Le32;
    var r := ind + |op|;
    var front := s[..r + 4];
    assert s[..ind] == front[..ind] == was[..ind];
    assert s[r..r + 4] == front[r..r + 4] == Le32(t);
    assert s[..r] == front[..r] == was[..ind] + op;
    ReadAt(s, r, t);
    WiredSamePrefix(j, was, s, ind, ind);
    ConsWired(j, s, ind, r, t);
  }

  /** The fields of a list lie in the code and do not overlap. */
  lemma ChainFields(j: Jumps, s: seq<byte>, ind: nat, t: nat)
    requires j.Wired(s, ind) && (t == 0 || t in j.lists)
    ensures var sites := j.List(t);
      Chain(s, t, sites) && Fit(s, sites) && (t != 0 ==> sites != [] && sites[0] == t) &&
      forall i, k :: 0 <= i < k < |sites| ==> Apart(sites[i], sites[k])
  {
    var sites := j.List(t);
    forall i | 0 <= i < |sites| ensures sites[i] + 4 <= |s| {
      OnList(j, ind, t, i);
    }
    forall i, k | 0 <= i < k < |sites| ensures Apart(sites[i], sites[k]) {
      OnList(j, ind, t, i);
      OnList(j, ind, t, k);
      ChainDistinct(s, t, sites, i, k);
      TwoSites(j, ind, sites[i], sites[k]);
    }
  }

  lemma ChainNext(s: seq<byte>, sites: seq<nat>, k: nat)
    requires k < |sites| && Chain(s, sites[k], sites[k..])
    ensures sites[k] + 4 <= |s| && Chain(s, Read32(s, sites[k]), sites[k + 1..])
    ensures Read32(s, sites[k]) == 0 <==> k == |sites| - 1
    ensures k + 1 < |sites| ==> Read32(s, sites[k]) == sites[k + 1]
  {
    assert sites[k..][1..] == sites[k + 1..];
  }

  lemma PatchedSoFar(s: seq<byte>, sites: seq<nat>, k: nat, a: int)
    requires k < |sites| && Fit(s, sites)
    requires forall i, m :: 0 <= i < m < |sites| ==> Apart(sites[i], sites[m])
    ensures Fit(s, sites[..k]) && Read32(PatchAll(s, sites[..k], a), sites[k]) == Read32(s, sites[k])
  {
    PatchAllTargets(s, sites[..k], a);
    SameBytes(s, PatchAll(s, sites[..k], a), sites[k]);
  }

  /** When nothing is pending, every jump that was ever emitted goes where it was sent. */
  lemma AllResolved(j: Jumps, s: seq<byte>, ind: nat)
    requires j.Wired(s, ind) && j.lists == map[]
    ensures forall p :: p in j.sites ==> p in j.targets && p + 4 <= |s| && Target(s, p) == j.targets[p]
  {
  }

  function ValueOf(bytes: seq<byte>): nat {
    if bytes == [] then 0 else bytes[0] as nat + 256 * ValueOf(bytes[1..])
  }

  /** The bytes of an opcode are its value, lowest first, without a zero byte at the end. */
  lemma {:induction false} OpBytesMean(c: nat)
    ensures ValueOf(OpBytes(c)) == c && (c > 0 ==> OpBytes(c) != [] && OpBytes(c)[|OpBytes(c)| - 1] != 0)
  {
    if c > 0 {
      OpBytesMean(c / 256);
      assert OpBytes(c)[1..] == OpBytes(c / 256);
    }
  }
}
