/** Little-endian access to byte buffers (tcc.h) and 32-bit wrap-around. */
module Bytes {
  type byte = x: int | 0 <= x < 256

  const WORD: int := 0x1_0000_0000
  const INT_LIMIT: int := 0x8000_0000   // above the largest int

  function Zeros(n: nat): (z: seq<byte>)
    ensures |z| == n && forall i :: 0 <= i < n ==> z[i] == 0
  {
    seq(n, _ => 0)
  }

  /** The value a uint32_t holds after x is stored in it. */
  function Wrap32(x: int): (r: nat)
    ensures r < WORD
    ensures 0 <= x < WORD ==> r == x
  {
    x % WORD
  }

  lemma WrapCongruent(x: int, y: int, k: int)
    requires x == y + k * WORD
    ensures Wrap32(x) == Wrap32(y)
  {
  }

  /** Four bytes of x, least significant first. */
  function Le32(x: int): (s: seq<byte>)
    ensures |s| == 4
  {
    var w := Wrap32(x);
    [w % 256, w / 256 % 256, w / 65536 % 256, w / 16777216]
  }

  /** The word whose bytes are s[p..p + 4]. */
  function Read32(s: seq<byte>, p: nat): (r: nat)
    requires p + 4 <= |s|
    ensures r < WORD
  {
    s[p] as int + 256 * (s[p + 1] as int) + 65536 * (s[p + 2] as int) + 16777216 * (s[p + 3] as int)
  }

  /** s with the four bytes at p replaced by those of x. */
  function Put32(s: seq<byte>, p: nat, x: int): (r: seq<byte>)
    requires p + 4 <= |s|
    ensures |r| == |s|
  {
    s[..p] + Le32(x) + s[p + 4..]
  }

  predicate Apart(p: int, q: int) {
    p + 4 <= q || q + 4 <= p
  }

  lemma ReadLe(x: int)
    ensures Read32(Le32(x), 0) == Wrap32(x)
  {
    var w := Wrap32(x);
    assert w / 256 / 256 == w / 65536;
    assert w / 65536 / 256 == w / 16777216;
  }

  /** A word whose four bytes stand at p. */
  lemma ReadAt(s: seq<byte>, p: nat, x: int)
    requires p + 4 <= |s| && s[p..p + 4] == Le32(x)
    ensures Read32(s, p) == Wrap32(x)
  {
    ReadLe(x);
    var f := s[p..p + 4];
    assert f[0] == s[p] && f[1] == s[p + 1] && f[2] == s[p + 2] && f[3] == s[p + 3];
  }

  lemma ReadSame(s: seq<byte>, t: seq<byte>, p: nat)
    requires p + 4 <= |s| == |t| && forall x :: p <= x < p + 4 ==> s[x] == t[x]
    ensures Read32(s, p) == Read32(t, p)
  {
    assert s[p] == t[p] && s[p + 1] == t[p + 1] && s[p + 2] == t[p + 2] && s[p + 3] == t[p + 3];
  }

  /** A stored word is read back, and words that do not overlap it are unchanged. */
  lemma ReadPut(s: seq<byte>, p: nat, x: int)
    requires p + 4 <= |s|
    ensures Read32(Put32(s, p, x), p) == Wrap32(x)
    ensures forall q: nat :: q + 4 <= |s| && Apart(p, q) ==> Read32(Put32(s, p, x), q) == Read32(s, q)
    ensures forall i :: 0 <= i < |s| && !(p <= i < p + 4) ==> Put32(s, p, x)[i] == s[i]
  {
    ReadLe(x);
    var r := Put32(s, p, x);
    assert forall j :: 0 <= j < 4 ==> r[p + j] == Le32(x)[j];
    assert r[p] == Le32(x)[0] && r[p + 1] == Le32(x)[1] && r[p + 2] == Le32(x)[2] && r[p + 3] == Le32(x)[3];
  }

  /** write32le. */
  method Write32(a: array<byte>, p: nat, x: int)
    requires p + 4 <= a.Length
    modifies a
    ensures a[..] == Put32(old(a[..]), p, x)
  {
    var w := Wrap32(x);
    a[p], a[p + 1], a[p + 2], a[p + 3] := w % 256, w / 256 % 256, w / 65536 % 256, w / 16777216;
  }
}
