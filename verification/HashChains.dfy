/** The bucket heads and links of the SysV hash section, over the bucket number of each symbol. */
module HashChains {
  /** keys[i] is the bucket of symbol i, or -1 when the symbol is not hashed. */
  ghost function Latest(keys: seq<int>, h: nat, k: nat): (j: nat)
    requires k <= |keys|
    ensures j == 0 || (1 <= j < k && keys[j] == h)
  {
    if k <= 1 then 0 else if keys[k - 1] == h then k - 1 else Latest(keys, h, k - 1)
  }

  /** The words of the hash section, for nb buckets, once symbols 1..k are linked in:
      each head, and the link of each hashed symbol, is the last earlier symbol of the bucket; the
      links of the others are 0. */
  ghost predicate Linked(words: seq<nat>, keys: seq<int>, nb: nat, k: nat) {
    1 <= nb && k <= |keys| && |words| == 2 + nb + |keys| &&
    (forall x :: 2 <= x < 2 + nb ==> words[x] == Latest(keys, x - 2, k)) &&
    (forall x :: 3 + nb <= x < 2 + nb + k && keys[x - 2 - nb] >= 0 ==>
      words[x] == Latest(keys, keys[x - 2 - nb], x - 2 - nb)) &&
    (forall x :: 3 + nb <= x < 2 + nb + k && keys[x - 2 - nb] < 0 ==> words[x] == 0)
  }

  /** Symbol k becomes the head of its bucket. */
  function Push(words: seq<nat>, nb: nat, k: nat, key: int): (r: seq<nat>)
    requires key < nb && 2 + nb + k < |words|
    ensures |r| == |words| && r[0] == words[0] && r[1] == words[1]
  {
    if key >= 0 then words[2 + nb + k := words[2 + key]][2 + key := k] else words[2 + nb + k := 0]
  }

  lemma PushLinks(words: seq<nat>, keys: seq<int>, nb: nat, k: nat)
    requires Linked(words, keys, nb, k) && 1 <= k < |keys| && -1 <= keys[k] < nb
    requires forall i :: 0 <= i < |keys| ==> -1 <= keys[i] < nb
    ensures Linked(Push(words, nb, k, keys[k]), keys, nb, k + 1)
  {
    var r := Push(words, nb, k, keys[k]);
    forall x | 2 <= x < 2 + nb ensures r[x] == Latest(keys, x - 2, k + 1) {
      assert words[x] == Latest(keys, x - 2, k);
    }
    forall x | 3 + nb <= x < 2 + nb + (k + 1) && keys[x - 2 - nb] >= 0
      ensures r[x] == Latest(keys, keys[x - 2 - nb], x - 2 - nb)
    {
      if x == 2 + nb + k {
        assert words[2 + keys[k]] == Latest(keys, keys[k], k);
      } else {
        assert r[x] == words[x];
      }
    }
    forall x | 3 + nb <= x < 2 + nb + (k + 1) && keys[x - 2 - nb] < 0 ensures r[x] == 0 {
      if x != 2 + nb + k {
        assert r[x] == words[x];
      }
    }
    hide Push, Latest;
  }

  lemma LinkedRoom(words: seq<nat>, keys: seq<int>, nb: nat, k: nat)
    requires Linked(words, keys, nb, k)
    ensures |words| == 2 + nb + |keys|
  {
  }

  /** Making room for one more symbol leaves the chains as they are. */
  lemma LinkedGrows(words: seq<nat>, keys: seq<int>, nb: nat, key: int, w: nat)
    requires Linked(words, keys, nb, |keys|)
    ensures Linked(words + [w], keys + [key], nb, |keys|)
  {
    forall h: nat, k: nat | k <= |keys| ensures Latest(keys + [key], h, k) == Latest(keys, h, k) {
      LatestPrefix(keys, keys + [key], h, k);
    }
  }

  lemma LatestPrefix(keys: seq<int>, longer: seq<int>, h: nat, k: nat)
    requires k <= |keys| && keys <= longer
    ensures Latest(longer, h, k) == Latest(keys, h, k)
  {
  }

  /** The two header words take no part in the chains. */
  lemma LinkedHeader(words: seq<nat>, keys: seq<int>, nb: nat, k: nat, w: nat)
    requires Linked(words, keys, nb, k)
    ensures Linked(words[1 := w], keys, nb, k)
  {
  }
}
