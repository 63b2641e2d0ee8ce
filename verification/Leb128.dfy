/** LEB128 numbers: the writers (tccdbg.c), the readers (tcc.h), and the round trip
    (DWARF 5, section 7.6). */
module Leb128 {
  import opened Bits
  import opened Bytes

  const U64: int := 0x1_0000_0000_0000_0000
  const MAX_BYTES: nat := 10   // DWARF_MAX_128

  /** The bytes of an unsigned number: seven bits at a time, low bits first. */
  function Uleb(v: nat): (s: seq<byte>)
    ensures |s| > 0
  {
    if v / 128 == 0 then [v % 128] else [v % 128 + 128] + Uleb(v / 128)
  }

  /** v >> 63 for a 64-bit v. */
  function SignFill(v: int): int {
    if v < 0 then -1 else 0
  }

  /** The last byte: all remaining bits, and bit 6 of the byte, equal the sign. */
  predicate SlebEnds(v: int) {
    v / 128 == SignFill(v) && (v % 128 >= 64 <==> v < 0)
  }

  /** The bytes of a signed number. */
  function Sleb(v: int): (s: seq<byte>)
    ensures |s| > 0
    decreases if v < 0 then -v else v
  {
    if SlebEnds(v) then [v % 128] else [v % 128 + 128] + Sleb(v / 128)
  }

  // ---------------------------------------------------------------- readers

  /** dwarf_read_1: past the end it reads 0 and does not move. */
  function ReadByte(s: seq<byte>, cp: nat, end: nat): (byte, nat)
    requires end <= |s|
  {
    if cp < end then (s[cp], cp + 1) else (0, cp)
  }

  /** (byte & 0x7f) << (i * 7), in 64 bits. */
  function Place(b: byte, i: nat): nat {
    b % 128 * Pow2(7 * i) % U64
  }

  /** Turn i and later of the loop of dwarf_read_uleb128. */
  function UlebFrom(s: seq<byte>, cp: nat, end: nat, i: nat, acc: nat): (r: (nat, nat))
    requires end <= |s| && i <= MAX_BYTES
    decreases MAX_BYTES - i
  {
    if i == MAX_BYTES then (acc, cp)
    else
      var (b, next) := ReadByte(s, cp, end);
      var acc' := Or(acc, Place(b, i));
      if b < 128 then (acc', next) else UlebFrom(s, next, end, i + 1, acc')
  }

  /** The 64-bit pattern read by dwarf_read_sleb128 from turn i on. */
  function SlebFrom(s: seq<byte>, cp: nat, end: nat, i: nat, acc: nat): (r: (nat, nat))
    requires end <= |s| && i <= MAX_BYTES
    decreases MAX_BYTES - i
  {
    if i == MAX_BYTES then (acc, cp)
    else
      var (b, next) := ReadByte(s, cp, end);
      var acc' := Or(acc, Place(b, i));
      if b < 128 then
        (if b >= 64 && 7 * (i + 1) < 64 then Or(acc', U64Minus(7 * (i + 1))) else acc', next)
      else
        SlebFrom(s, next, end, i + 1, acc')
  }

  /** (uint64_t)-1 << k. */
  function U64Minus(k: nat): nat
    requires k < 64
  {
    (Pow2(64 - k) - 1) * Pow2(k)
  }

  /** A 64-bit pattern read as a signed number. */
  function Signed64(x: nat): int {
    if x < U64 / 2 then x else x - U64
  }

  /** A signed number as a 64-bit pattern. */
  function Pattern64(x: int): int {
    if x < 0 then x + U64 else x
  }

  function ReadUleb(s: seq<byte>, cp: nat, end: nat): (nat, nat)
    requires end <= |s|
  {
    UlebFrom(s, cp, end, 0, 0)
  }

  function ReadSleb(s: seq<byte>, cp: nat, end: nat): (int, nat)
    requires end <= |s|
  {
    var (v, next) := SlebFrom(s, cp, end, 0, 0);
    (Signed64(v), next)
  }

  // ---------------------------------------------------------------- round trip

  /** Bits that do not overlap: | is +. */
  lemma {:induction false} OrDisjoint(x: nat, z: nat, k: nat)
    requires x < Pow2(k)
    ensures Or(x, z * Pow2(k)) == x + z * Pow2(k)
    decreases k
  {
    if k == 0 {
      assert Pow2(0) == 1 && x == 0;
    } else {
      var p: nat := Pow2(k - 1);
      assert Pow2(k) == 2 * p;
      OrDisjoint(x / 2, z, k - 1);
      OrDisjointStep(x, z, p);
    }
  }

  lemma TwiceOf(z: nat, p: nat)
    ensures z * (2 * p) == 2 * (z * p)
  {
  }

  lemma OrDisjointStep(x: nat, z: nat, p: nat)
    requires Or(x / 2, z * p) == x / 2 + z * p
    ensures Or(x, z * (2 * p)) == x + z * (2 * p)
  {
    hide Or;
    var m := z * p;
    TwiceOf(z, p);
    OrHalves(x, 2 * m);
    assert 2 * m / 2 == m;
  }

  lemma OrHalves(x: nat, y: nat)
    requires y % 2 == 0
    ensures Or(x, y) == 2 * Or(x / 2, y / 2) + x % 2
  {
  }

  lemma Pow2Next(i: nat)
    ensures Pow2(7 * (i + 1)) == 128 * Pow2(7 * i)
  {
    Pow2Add(7 * i, 7);
    assert Pow2(7) == 128 by {
      assert Pow2(3) == 8;
      Pow2Add(3, 3);
      Pow2Add(6, 1);
    }
  }

  lemma Pow2Of63()
    ensures Pow2(63) == U64 / 2 && Pow2(64) == U64
  {
    assert Pow2(0) == 1;
    Pow2Next(0);
    Pow2Next(1);
    Pow2Next(2);
    Pow2Next(3);
    Pow2Next(4);
    Pow2Next(5);
    Pow2Next(6);
    Pow2Next(7);
    Pow2Next(8);
  }

  /** Seven more bits go above the ones read so far. */
  lemma AddBits(acc: nat, b: byte, i: nat, p: nat)
    requires p == Pow2(7 * i) && acc < p && b % 128 * p < U64
    ensures Or(acc, Place(b, i)) == acc + b % 128 * p < 128 * p
  {
    hide Pow2, Or;
    OrDisjoint(acc, b % 128, 7 * i);
    MulLe(b % 128, 127, p);
    SmallMod(b % 128 * p);
  }

  lemma SmallMod(t: nat)
    requires t < U64
    ensures t % U64 == t
  {
  }

  ghost predicate Stands(s: seq<byte>, cp: nat, end: nat, bytes: seq<byte>) {
    cp + |bytes| <= end <= |s| && s[cp..cp + |bytes|] == bytes
  }

  lemma StandsTail(s: seq<byte>, cp: nat, end: nat, bytes: seq<byte>)
    requires Stands(s, cp, end, bytes) && |bytes| > 0
    ensures cp < end && s[cp] == bytes[0] && Stands(s, cp + 1, end, bytes[1..])
  {
    var t := s[cp..cp + |bytes|];
    assert t[0] == s[cp] && t[1..] == s[cp + 1..cp + |bytes|];
  }

  lemma Split(w: int, p: nat)
    ensures w * p == w % 128 * p + w / 128 * (128 * p)
  {
    assert w == w % 128 + w / 128 * 128;
    assert w / 128 * (128 * p) == w / 128 * 128 * p;
  }

  /** More than seven bits do not begin in the last byte. */
  lemma UlebRoom(w: nat, i: nat, p: nat)
    requires i < MAX_BYTES && p == Pow2(7 * i) && w * p < U64 && w / 128 > 0
    ensures i < MAX_BYTES - 1 && 128 * p == Pow2(7 * (i + 1))
  {
    Pow2Next(i);
    MulLe(2, w, p);
    Pow2Of63();
    assert i == MAX_BYTES - 1 ==> 7 * i == 63;
    hide Pow2;
  }

  lemma {:induction false} UlebRead(s: seq<byte>, cp: nat, end: nat, i: nat, acc: nat, w: nat, p: nat)
    requires i < MAX_BYTES && p == Pow2(7 * i) && acc < p && w * p < U64
    requires Stands(s, cp, end, Uleb(w))
    ensures UlebFrom(s, cp, end, i, acc) == (acc + w * p, cp + |Uleb(w)|)
    decreases w
  {
    hide Pow2, Or, Place;
    StandsTail(s, cp, end, Uleb(w));
    var b := s[cp];
    assert b % 128 == w % 128 && (b >= 128 <==> w / 128 > 0);
    assert Uleb(w)[1..] == if w / 128 > 0 then Uleb(w / 128) else [];
    hide Stands;
    Split(w, p);
    MulLe(0, w / 128, 128 * p);
    AddBits(acc, b, i, p);
    if w / 128 > 0 {
      UlebRoom(w, i, p);
      UlebRead(s, cp + 1, end, i + 1, acc + w % 128 * p, w / 128, 128 * p);
    }
  }

  /** dwarf_read_uleb128 undoes dwarf_uleb128 and stops at the last written byte. */
  lemma UlebRoundTrip(s: seq<byte>, cp: nat, end: nat, v: nat)
    requires v < U64 && Stands(s, cp, end, Uleb(v))
    ensures ReadUleb(s, cp, end) == (v, cp + |Uleb(v)|)
  {
    hide Uleb, UlebFrom;
    assert Pow2(7 * 0) == 1;
    UlebRead(s, cp, end, 0, 0, v, 1);
  }

  lemma SignBits(acc: nat, i: nat, p: nat)
    requires p == Pow2(7 * i) && acc < 128 * p && 7 * (i + 1) < 64
    ensures Or(acc, U64Minus(7 * (i + 1))) == acc + U64 - 128 * p
  {
    var k := 7 * (i + 1);
    hide Or;
    Pow2Next(i);
    OrDisjoint(acc, Pow2(64 - k) - 1, k);
    Pow2Add(64 - k, k);
    Pow2Of63();
    hide Pow2;
    OneLess(Pow2(64 - k), Pow2(k));
  }

  lemma OneLess(a: int, b: int)
    ensures (a - 1) * b == a * b - b
  {
  }

  lemma LastSlebByte(acc: nat, w: int, i: nat, p: nat)
    requires i < MAX_BYTES && p == Pow2(7 * i) && acc < p && SlebEnds(w)
    requires -(U64 / 2) <= w * p < U64 / 2
    ensures var b := w % 128;
      var acc' := Or(acc, Place(b, i));
      (if b >= 64 && 7 * (i + 1) < 64 then Or(acc', U64Minus(7 * (i + 1))) else acc') == Pattern64(acc + w * p)
  {
    hide Pow2, Or, U64Minus, Place;
    Pow2Of63();
    if i == MAX_BYTES - 1 {
      assert w == 0 || w == -1;
      OrDisjointTop(acc, w, p);
    } else {
      LastLowByte(acc, w, i, p);
    }
  }

  lemma LastLowByte(acc: nat, w: int, i: nat, p: nat)
    requires i + 1 < MAX_BYTES && p == Pow2(7 * i) && acc < p && SlebEnds(w)
    ensures var acc' := Or(acc, Place(w % 128, i));
      (if w < 0 then Or(acc', U64Minus(7 * (i + 1))) else acc') == Pattern64(acc + w * p)
  {
    hide Pow2, Or, U64Minus, Place;
    var b := w % 128;
    var _ := SmallPower(i, p);
    MulLe(b, 127, p);
    MulLe(0, b, p);
    AddBits(acc, b, i, p);
    if w < 0 {
      Minus128(b, p);
      MulLe(w, -1, p);
      SignBits(acc + b * p, i, p);
    }
  }

  lemma Minus128(b: int, p: int)
    ensures (b - 128) * p == b * p - 128 * p
  {
  }

  lemma OrDisjointTop(acc: nat, w: int, p: nat)
    requires p == Pow2(63) == U64 / 2 && acc < p && (w == 0 || w == -1)
    ensures Or(acc, Place(w % 128, 9)) == Pattern64(acc + w * p)
  {
    OrDisjoint(acc, if w == 0 then 0 else 1, 63);
    hide Pow2, Or;
    assert 127 * p == p + 63 * U64;
  }

  lemma SmallPower(i: nat, p: nat) returns (q: nat)
    requires i < MAX_BYTES - 1 && p == Pow2(7 * i)
    ensures 128 * p * q == U64 / 2 && 0 < 128 * p <= U64 / 2
  {
    q := Pow2(63 - 7 * (i + 1));
    Pow2Next(i);
    Pow2Add(7 * (i + 1), 63 - 7 * (i + 1));
    Pow2Of63();
    hide Pow2;
    assert 128 * p * q >= 128 * p;
  }

  lemma {:induction false} SlebRead(s: seq<byte>, cp: nat, end: nat, i: nat, acc: nat, w: int, p: nat)
    requires i < MAX_BYTES && p == Pow2(7 * i) && acc < p && -(U64 / 2) <= w * p < U64 / 2
    requires Stands(s, cp, end, Sleb(w))
    ensures SlebFrom(s, cp, end, i, acc).0 == Pattern64(acc + w * p)
    ensures SlebFrom(s, cp, end, i, acc).1 == cp + |Sleb(w)|
    decreases if w < 0 then -w else w
  {
    hide Pow2, Or, U64Minus, Place;
    StandsTail(s, cp, end, Sleb(w));
    var b := s[cp];
    assert b % 128 == w % 128;
    if SlebEnds(w) {
      LastSlebByte(acc, w, i, p);
    } else {
      SlebMore(acc, b, w, i, p);
      assert Sleb(w)[1..] == Sleb(w / 128);
      SlebRead(s, cp + 1, end, i + 1, acc + w % 128 * p, w / 128, 128 * p);
    }
  }

  /** A byte that is not the last one. */
  lemma SlebMore(acc: nat, b: byte, w: int, i: nat, p: nat)
    requires i < MAX_BYTES && p == Pow2(7 * i) && acc < p && -(U64 / 2) <= w * p < U64 / 2
    requires !SlebEnds(w) && b % 128 == w % 128
    ensures i + 1 < MAX_BYTES && 128 * p == Pow2(7 * (i + 1))
    ensures Or(acc, Place(b, i)) == acc + w % 128 * p < 128 * p
    ensures acc + w * p == acc + w % 128 * p + w / 128 * (128 * p)
    ensures -(U64 / 2) <= w / 128 * (128 * p) < U64 / 2
  {
    hide Pow2, Or, Place;
    SlebRoom(w, i, p);
    var q := SmallPower(i, p);
    MulLe(b % 128, 127, p);
    AddBits(acc, b, i, p);
    Split(w, p);
    Pow2Next(i);
    StillFits(w, p, q);
  }

  lemma SlebRoom(w: int, i: nat, p: nat)
    requires i < MAX_BYTES && p == Pow2(7 * i) && -(U64 / 2) <= w * p < U64 / 2 && !SlebEnds(w)
    ensures i < MAX_BYTES - 1
  {
    assert SlebEnds(0) && SlebEnds(-1);
    Pow2Of63();
    hide Pow2, SlebEnds;
    if i == MAX_BYTES - 1 {
      assert 7 * i == 63;
      if w >= 1 {
        MulLe(1, w, p);
      } else {
        MulLe(w, -2, p);
      }
    }
  }

  lemma StillFits(w: int, p: int, q: int)
    requires -(U64 / 2) <= w * p < U64 / 2 && 128 * p * q == U64 / 2 && p > 0
    ensures -(U64 / 2) <= w / 128 * (128 * p) < U64 / 2
  {
    assert 128 * q * p == U64 / 2;
    if w < -128 * q {
      MulLe(w, -128 * q - 1, p);
    }
    if w >= 128 * q {
      MulLe(128 * q, w, p);
    }
    MulLe(-q, w / 128, 128 * p);
    MulLe(w / 128, q - 1, 128 * p);
  }

  /** dwarf_read_sleb128 undoes dwarf_sleb128 and stops at the last written byte. */
  lemma SlebRoundTrip(s: seq<byte>, cp: nat, end: nat, v: int)
    requires -(U64 / 2) <= v < U64 / 2 && Stands(s, cp, end, Sleb(v))
    ensures ReadSleb(s, cp, end) == (v, cp + |Sleb(v)|)
  {
    hide Sleb, SlebFrom;
    assert Pow2(7 * 0) == 1;
    SlebRead(s, cp, end, 0, 0, v, 1);
  }

  // ---------------------------------------------------------------- the loops

  /** dwarf_sleb128_size: the loop of the writer without its output. */
  method SlebSize(value: int) returns (size: nat)
    ensures size == |Sleb(value)|
  {
    var end := SignFill(value);
    var rest := value;
    size := 0;
    var more := true;
    while more
      invariant more ==> SignFill(rest) == end && size + |Sleb(rest)| == |Sleb(value)|
      invariant !more ==> size == |Sleb(value)|
      decreases more, if rest < 0 then -rest else rest
    {
      var byte_ := rest % 128;
      more := !(rest / 128 == end && (byte_ >= 64 <==> end != 0));
      rest := rest / 128;
      size := size + 1;
    }
  }

  /** dwarf_read_uleb128. */
  method ReadUlebLoop(s: seq<byte>, ln: nat, end: nat) returns (v: nat, next: nat)
    requires end <= |s|
    ensures (v, next) == ReadUleb(s, ln, end)
  {
    v, next := 0, ln;
    var i := 0;
    while i < MAX_BYTES
      invariant i <= MAX_BYTES && UlebFrom(s, next, end, i, v) == ReadUleb(s, ln, end)
    {
      var (b, cp) := ReadByte(s, next, end);
      next := cp;
      v := Or(v, Place(b, i));
      if b < 128 {
        break;
      }
      i := i + 1;
    }
  }

  /** dwarf_read_sleb128. */
  method ReadSlebLoop(s: seq<byte>, ln: nat, end: nat) returns (v: int, next: nat)
    requires end <= |s|
    ensures (v, next) == ReadSleb(s, ln, end)
  {
    var acc := 0;
    next := ln;
    var i := 0;
    while i < MAX_BYTES
      invariant i <= MAX_BYTES && SlebFrom(s, next, end, i, acc) == SlebFrom(s, ln, end, 0, 0)
    {
      var (b, cp) := ReadByte(s, next, end);
      next := cp;
      acc := Or(acc, Place(b, i));
      if b < 128 {
        if b >= 64 && 7 * (i + 1) < 64 {
          acc := Or(acc, U64Minus(7 * (i + 1)));
        }
        break;
      }
      i := i + 1;
    }
    v := Signed64(acc);
  }
}
