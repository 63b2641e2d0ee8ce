/** The GNU hash table of the dynamic symbols (tccelf.c): sizes, filling, and the lookup of the
    dynamic loader. */
module GnuHash {
  import opened Bits
  import opened Bytes
  import opened Symbols

  const WORD_BITS: nat := 32   // ELFCLASS_BITS

  /** elf_gnu_hash. */
  function Hash(name: Name): (h: nat)
    ensures h < WORD
    decreases |name|
  {
    if name == [] then 5381 else Wrap32(Hash(name[..|name| - 1]) * 33 + name[|name| - 1])
  }

  method ComputeHash(name: Name) returns (h: nat)
    ensures h == Hash(name)
  {
    h := 5381;
    for i := 0 to |name|
      invariant h == Hash(name[..i])
    {
      assert name[..i + 1][..i] == name[..i];
      h := Wrap32(h * 33 + name[i]);
    }
    assert name[..|name|] == name;
  }

  /** In closed form: the digits of the name to the base 33, after a first digit of 5381. */
  lemma {:induction false} HashMeans(name: Name)
    ensures Hash(name) == (5381 * Power(33, |name|) + Digits(name, 33)) % WORD
    decreases |name|
  {
    if name != [] {
      var n := |name| - 1;
      HashMeans(name[..n]);
      DigitsNext(name, 33);
      var x := 5381 * Power(33, n) + Digits(name[..n], 33);
      assert 5381 * Power(33, n + 1) == 33 * (5381 * Power(33, n));
      WrapCongruent(Hash(name[..n]) * 33 + name[n], x * 33 + name[n], -33 * (x as int / WORD));
    }
  }

  // ---------------------------------------------------------------- bits

  predicate Bit(w: nat, k: nat) {
    w / Pow2(k) % 2 == 1
  }

  lemma BitHalf(w: nat, k: nat)
    requires k > 0
    ensures Bit(w, k) == Bit(w / 2, k - 1)
  {
    DivHalf(w, Pow2(k - 1));
  }

  lemma OrSplits(x: nat, y: nat)
    ensures Or(x, y) / 2 == Or(x / 2, y / 2)
    ensures Or(x, y) % 2 == 1 <==> x % 2 == 1 || y % 2 == 1
  {
  }

  lemma {:induction false} OrBit(x: nat, y: nat, k: nat)
    ensures Bit(Or(x, y), k) <==> Bit(x, k) || Bit(y, k)
    decreases k
  {
    OrSplits(x, y);
    hide Or;
    if k > 0 {
      BitHalf(Or(x, y), k);
      BitHalf(x, k);
      BitHalf(y, k);
      OrBit(x / 2, y / 2, k - 1);
    } else {
      assert Pow2(0) == 1;
    }
  }

  lemma {:induction false} PowerBit(k: nat)
    ensures Bit(Pow2(k), k)
  {
    if k > 0 {
      BitHalf(Pow2(k), k);
      PowerBit(k - 1);
    } else {
      assert Pow2(0) == 1;
    }
  }

  // ---------------------------------------------------------------- the table and its lookup

  /** The words of the section: header, Bloom filter, buckets, chain. */
  datatype Section = Section(nbuckets: nat, symoffset: nat, bloomSize: nat, bloomShift: nat,
                             bloom: seq<nat>, buckets: seq<nat>, chain: seq<nat>) {
    predicate Sized() {
      nbuckets > 0 && bloomSize > 0 && |bloom| == bloomSize && |buckets| == nbuckets
    }

    function BloomIndex(h: nat): (i: nat)
      requires Sized()
      ensures i < |bloom|
    {
      h / WORD_BITS % bloomSize
    }

    /** Both bits of h are set in its word of the Bloom filter. */
    predicate BloomHas(h: nat)
      requires Sized()
    {
      var w := bloom[BloomIndex(h)];
      Bit(w, h % WORD_BITS) && Bit(w, h / Pow2(bloomShift) % WORD_BITS)
    }

    function BloomAdd(h: nat): (g: Section)
      requires Sized()
      ensures g == this.(bloom := g.bloom) && g.Sized()
    {
      var i := BloomIndex(h);
      this.(bloom := bloom[i := Or(bloom[i], Or(Pow2(h % WORD_BITS), Pow2(h / Pow2(bloomShift) % WORD_BITS)))])
    }

    function Bucket(s: Sym): (b: nat)
      requires nbuckets > 0
      ensures b < nbuckets
    {
      Hash(s.name) % nbuckets
    }
  }

  lemma BloomAdds(g: Section, h: nat, k: nat)
    requires g.Sized()
    ensures g.BloomAdd(h).BloomHas(h)
    ensures g.BloomHas(k) ==> g.BloomAdd(h).BloomHas(k)
  {
    var a, b := h % WORD_BITS, h / Pow2(g.bloomShift) % WORD_BITS;
    var w := g.bloom[g.BloomIndex(h)];
    PowerBit(a);
    PowerBit(b);
    hide Bit, Or;
    OrBit(Pow2(a), Pow2(b), a);
    OrBit(Pow2(a), Pow2(b), b);
    var m := Or(Pow2(a), Pow2(b));
    OrBit(w, m, a);
    OrBit(w, m, b);
    OrBit(w, m, k % WORD_BITS);
    OrBit(w, m, k / Pow2(g.bloomShift) % WORD_BITS);
  }

  /** The section describes the table t: undefined symbols first, then the defined ones bucket by
      bucket; chain words hold the hashes with bit 0 marking the last symbol of a bucket. */
  ghost predicate Describes(g: Section, t: seq<Sym>) {
    g.Sized() && g.symoffset + |g.chain| == |t| &&
    (forall p :: 0 <= p < |t| ==> (t[p].Defined() <==> g.symoffset <= p)) &&
    (forall p, q :: g.symoffset <= p < q < |t| ==> g.Bucket(t[p]) <= g.Bucket(t[q])) &&
    (forall p :: g.symoffset <= p < |t| ==>
      g.chain[p - g.symoffset] == Hash(t[p].name) / 2 * 2 + (if EndsBucket(g, t, p) then 1 else 0)) &&
    (forall b :: 0 <= b < g.nbuckets ==> Heads(g, t, b)) &&
    (forall p :: g.symoffset <= p < |t| ==> g.BloomHas(Hash(t[p].name)))
  }

  ghost predicate EndsBucket(g: Section, t: seq<Sym>, p: nat)
    requires g.nbuckets > 0 && p < |t|
  {
    p + 1 == |t| || g.Bucket(t[p + 1]) != g.Bucket(t[p])
  }

  ghost predicate Heads(g: Section, t: seq<Sym>, b: nat)
    requires g.nbuckets > 0 && b < |g.buckets|
  {
    var head := g.buckets[b];
    if head == 0 then
      forall p :: g.symoffset <= p < |t| ==> g.Bucket(t[p]) != b
    else
      g.symoffset <= head < |t| && g.Bucket(t[head]) == b &&
      forall p :: g.symoffset <= p < head ==> g.Bucket(t[p]) != b
  }

  /** The lookup of the dynamic loader: Bloom test, bucket, chain up to a word with bit 0 set. It
      finds a defined symbol of that name exactly when there is one; 0 means not found. */
  method Lookup(g: Section, t: seq<Sym>, name: Name) returns (r: nat)
    requires Describes(g, t) && g.symoffset >= 1
    ensures r != 0 ==> g.symoffset <= r < |t| && t[r].Defined() && t[r].name == name
    ensures r == 0 ==> forall p :: 0 <= p < |t| && t[p].Defined() ==> t[p].name != name
  {
    hide Hash, Bit, Describes, Section.BloomHas;
    DescribesFacts(g, t);
    var h := ComputeHash(name);
    if !g.BloomHas(h) {
      return 0;
    }
    var b := h % g.nbuckets;
    DescribesHead(g, t, b);
    var p := g.buckets[b];
    if p == 0 {
      return 0;
    }
    while true
      invariant g.symoffset <= p < |t| && g.Bucket(t[p]) == b
      invariant forall q :: g.symoffset <= q < p ==> t[q].name != name
      decreases |t| - p
    {
      DescribesWord(g, t, p);
      var w := g.chain[p - g.symoffset];
      if w / 2 == h / 2 && t[p].name == name {
        return p;
      }
      if w % 2 == 1 {
        BucketOver(g, t, p);
        return 0;
      }
      p := p + 1;
    }
  }

  lemma DescribesFacts(g: Section, t: seq<Sym>)
    requires Describes(g, t)
    ensures g.Sized() && g.symoffset + |g.chain| == |t|
    ensures forall p :: 0 <= p < |t| ==> (t[p].Defined() <==> g.symoffset <= p)
    ensures forall p :: g.symoffset <= p < |t| ==> g.BloomHas(Hash(t[p].name))
  {
  }

  lemma DescribesHead(g: Section, t: seq<Sym>, b: nat)
    requires Describes(g, t) && b < g.nbuckets
    ensures Heads(g, t, b)
  {
  }

  lemma DescribesWord(g: Section, t: seq<Sym>, p: nat)
    requires Describes(g, t) && g.symoffset <= p < |t|
    ensures var w := g.chain[p - g.symoffset];
      w / 2 == Hash(t[p].name) / 2 && (w % 2 == 1 <==> EndsBucket(g, t, p))
  {
  }

  /** No symbol after the last one of a bucket belongs to it. */
  lemma BucketOver(g: Section, t: seq<Sym>, p: nat)
    requires Describes(g, t) && g.symoffset <= p < |t| && EndsBucket(g, t, p)
    ensures forall q :: p < q < |t| ==> g.Bucket(t[q]) != g.Bucket(t[p])
  {
    hide Hash;
    forall q | p < q < |t| ensures g.Bucket(t[q]) != g.Bucket(t[p]) {
      assert g.Bucket(t[p]) <= g.Bucket(t[p + 1]);
      assert p + 1 < q ==> g.Bucket(t[p + 1]) <= g.Bucket(t[q]);
    }
  }
}
