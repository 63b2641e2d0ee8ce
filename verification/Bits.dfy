/** Bitwise operators on natural numbers, bit by bit. */
module Bits {
  function And(x: nat, y: nat): (r: nat)
    ensures r <= x && r <= y
  {
    if x == 0 || y == 0 then 0 else 2 * And(x / 2, y / 2) + (if x % 2 == 1 && y % 2 == 1 then 1 else 0)
  }

  function Or(x: nat, y: nat): nat
    decreases x + y
  {
    if x == 0 then y else if y == 0 then x
    else 2 * Or(x / 2, y / 2) + (if x % 2 == 1 || y % 2 == 1 then 1 else 0)
  }

  function Xor(x: nat, y: nat): nat
    decreases x + y
  {
    if x == 0 then y else if y == 0 then x
    else 2 * Xor(x / 2, y / 2) + (x + y) % 2
  }

  function Pow2(k: nat): (r: nat)
    ensures r >= 1
  {
    if k == 0 then 1 else 2 * Pow2(k - 1)
  }

  lemma {:induction false} Pow2Add(j: nat, k: nat)
    ensures Pow2(j + k) == Pow2(j) * Pow2(k)
  {
    if k > 0 {
      Pow2Add(j, k - 1);
    }
  }

  lemma MulLe(a: int, b: int, p: int)
    requires a <= b && 0 <= p
    ensures a * p <= b * p
    decreases b - a
  {
    if a < b {
      MulLe(a, b - 1, p);
    }
  }

  lemma DivUnique(w: nat, d: nat, q: nat, r: nat)
    requires w == q * d + r && r < d
    ensures w / d == q
  {
    var q', r' := w / d, w % d;
    assert w == q' * d + r';
    if q < q' {
      MulLe(q + 1, q', d);
    } else if q' < q {
      MulLe(q' + 1, q, d);
    }
  }

  predicate PowerOfTwo(n: nat) {
    n == 1 || (n > 0 && n % 2 == 0 && PowerOfTwo(n / 2))
  }

  lemma PowerOfOne()
    ensures PowerOfTwo(1)
  {
  }

  lemma PowerDoubles(n: nat)
    requires PowerOfTwo(n)
    ensures PowerOfTwo(n * 2)
  {
    assert n * 2 / 2 == n;
  }

  /** b is a, doubled some number of times. */
  predicate IsDoubled(a: nat, b: nat) {
    b == a || (a < b && b % 2 == 0 && IsDoubled(a, b / 2))
  }

  lemma DoubledSame(a: nat)
    ensures IsDoubled(a, a)
  {
  }

  lemma DoubledNext(a: nat, b: nat)
    requires IsDoubled(a, b) && a > 0
    ensures IsDoubled(a, b * 2) && a <= b
  {
  }

  /** Dividing by a power of two bit by bit. */
  lemma DivHalf(w: nat, p: nat)
    requires p > 0
    ensures w / (2 * p) == w / 2 / p
  {
    var q, r := w / 2 / p, w / 2 % p;
    assert w / 2 == q * p + r;
    assert w == q * (2 * p) + (2 * r + w % 2);
    DivUnique(w, 2 * p, q, 2 * r + w % 2);
  }

  lemma AndEven(x: nat, z: nat)
    ensures And(x, 2 * z) == 2 * And(x / 2, z)
  {
    if x != 0 && z != 0 {
      assert 2 * z / 2 == z && 2 * z % 2 == 0;
    }
  }

  lemma XorHalf(x: nat, y: nat)
    ensures Xor(x, y) == 2 * Xor(x / 2, y / 2) + (x + y) % 2
  {
  }

  lemma Halves(m: nat, r: nat)
    ensures (2 * m + r) / 2 == m + r / 2 && (2 * m + r) % 2 == r % 2
  {
  }

  lemma Pow2Twice(k: nat)
    ensures Pow2(0) == 1 && Pow2(k + 1) == 2 * Pow2(k)
  {
  }

  lemma TimesTwice(z: nat, h: nat)
    ensures z * (2 * h) == 2 * (z * h)
  {
  }

  lemma AndHighStep(m: nat, r: nat, z: nat)
    ensures And(2 * m + r, 2 * z) == 2 * And(m + r / 2, z)
  {
    hide And;
    Halves(m, r);
    AndEven(2 * m + r, z);
  }

  /** Masking with a multiple of 2^k. */
  lemma {:induction false} AndHigh(q: nat, r: nat, y: nat, k: nat)
    requires r < Pow2(k)
    ensures And(q * Pow2(k) + r, y * Pow2(k)) == And(q, y) * Pow2(k)
  {
    hide And, Pow2;
    Pow2Twice(if k == 0 then 0 else k - 1);
    if k > 0 {
      var h: nat := Pow2(k - 1);
      AndHigh(q, r / 2, y, k - 1);
      TimesTwice(q, h);
      TimesTwice(y, h);
      TimesTwice(And(q, y), h);
      AndHighStep(q * h, r, y * h);
    }
  }

  lemma XorLowStep(m: nat, x: nat, z: nat)
    requires Xor(m + x / 2, z / 2) == m + Xor(x / 2, z / 2)
    ensures Xor(2 * m + x, z) == 2 * m + Xor(x, z)
  {
    hide Xor;
    Halves(m, x);
    XorHalf(2 * m + x, z);
    XorHalf(x, z);
  }

  /** A number below 2^k changes the low k bits only. */
  lemma {:induction false} XorLow(x: nat, y: nat, z: nat, k: nat)
    requires x < Pow2(k) && z < Pow2(k)
    ensures Xor(y * Pow2(k) + x, z) == y * Pow2(k) + Xor(x, z)
  {
    hide Xor, Pow2;
    Pow2Twice(if k == 0 then 0 else k - 1);
    if k == 0 {
      XorZero(y * 1);
      XorZero(0);
    } else {
      var h: nat := Pow2(k - 1);
      XorLow(x / 2, y, z / 2, k - 1);
      TimesTwice(y, h);
      XorLowStep(y * h, x, z);
    }
  }

  lemma {:induction false} XorBelow(x: nat, z: nat, k: nat)
    requires x < Pow2(k) && z < Pow2(k)
    ensures Xor(x, z) < Pow2(k)
  {
    hide Xor;
    if k == 0 {
      XorZero(0);
    } else {
      XorBelow(x / 2, z / 2, k - 1);
      XorHalf(x, z);
    }
  }

  lemma XorZero(x: nat)
    ensures Xor(x, 0) == x
  {
  }

  lemma {:induction false} AndSelf(x: nat)
    ensures And(x, x) == x
  {
    if x != 0 {
      AndSelf(x / 2);
    }
  }

  lemma AndNibble(x: nat)
    requires x < 16
    ensures And(x, 15) == x
  {
    assert And(x / 8, 1) == x / 8;
    assert And(x / 4, 3) == x / 4;
    assert And(x / 2, 7) == x / 2;
  }

  lemma Pow2Of28()
    ensures Pow2(28) == 0x1000_0000
  {
    Pow2Add(14, 14);
    Pow2Add(7, 7);
    assert Pow2(7) == 128 by {
      Pow2Add(4, 3);
      assert Pow2(3) == 8;
      assert Pow2(4) == 16;
    }
  }
}
