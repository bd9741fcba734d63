/** Bitwise operators on unbounded naturals, defined bit by bit, and the laws that
    turn the kernel's masks and shifts into division and remainder. */
module Bits {

  const WORD: nat := 0x1_0000_0000_0000_0000

  function Pow2(k: nat): (p: nat)
    ensures p >= 1
  {
    if k == 0 then 1 else 2 * Pow2(k - 1)
  }

  function And(x: nat, y: nat): nat
  {
    if x == 0 then 0
    else (if x % 2 == 1 && y % 2 == 1 then 1 else 0) + 2 * And(x / 2, y / 2)
  }

  function Or(x: nat, y: nat): nat
    decreases x + y
  {
    if x == 0 && y == 0 then 0
    else (if x % 2 == 1 || y % 2 == 1 then 1 else 0) + 2 * Or(x / 2, y / 2)
  }

  lemma Pow2Values()
    ensures Pow2(9) == 512 && Pow2(10) == 1024 && Pow2(12) == 4096
    ensures Pow2(40) == 0x100_0000_0000 && Pow2(64) == WORD
  {
    assert Pow2(6) == 0x40;
    assert Pow2(12) == 0x1000;
    assert Pow2(18) == 0x40000;
    assert Pow2(24) == 0x1000000;
    assert Pow2(30) == 0x40000000;
    assert Pow2(36) == 0x1000000000;
    assert Pow2(42) == 0x40000000000;
    assert Pow2(48) == 0x1000000000000;
    assert Pow2(54) == 0x40000000000000;
    assert Pow2(60) == 0x1000000000000000;
  }

  /** Quotient and remainder are unique. */
  lemma DivModUnique(x: nat, d: nat, q: nat, r: nat)
    requires r < d && x == q * d + r
    ensures x / d == q && x % d == r
  {
    var q', r' := x / d, x % d;
    MulDiff(q, q', d);
    if q < q' {
      MulAtLeast(q' - q, d);
    } else if q' < q {
      MulAtLeast(q - q', d);
    }
  }

  lemma MulAtLeast(a: int, d: nat)
    requires a >= 1
    ensures a * d >= d
  {
  }

  lemma MulDiff(a: int, b: int, d: int)
    ensures (a - b) * d == a * d - b * d
    ensures (b - a) * d == b * d - a * d
  {
  }

  lemma {:induction false} OrZero(x: nat)
    ensures Or(x, 0) == x
  {
    if x != 0 { OrZero(x / 2); }
  }

  function Shl(x: nat, k: nat): nat {
    if k == 0 then x else 2 * Shl(x, k - 1)
  }

  lemma {:induction false} ShlTimes(x: nat, k: nat)
    ensures Shl(x, k) == x * Pow2(k)
  {
    if k != 0 {
      ShlTimes(x, k - 1);
      Double(x, Pow2(k - 1));
    }
  }

  /** Or acts separately on the bits below and above position k. */
  lemma {:induction false} OrSplit(h: nat, g: nat, k: nat, x: nat, y: nat)
    requires x < Pow2(k) && y < Pow2(k)
    ensures Or(Shl(h, k) + x, Shl(g, k) + y) == Shl(Or(h, g), k) + Or(x, y)
    ensures Or(x, y) < Pow2(k)
  {
    if k == 0 {
      assert Or(x, y) == 0;
    } else {
      OrSplit(h, g, k - 1, x / 2, y / 2);
      OrStep(x, y);
      OrDouble(Shl(h, k - 1) + x / 2, Shl(g, k - 1) + y / 2, x % 2, y % 2);
    }
  }

  lemma Double(a: int, b: int)
    ensures 2 * (a * b) == a * (2 * b)
  {
  }

  lemma OrDouble(a: nat, b: nat, c: nat, d: nat)
    requires c < 2 && d < 2
    ensures Or(2 * a + c, 2 * b + d) == 2 * Or(a, b) + (if c == 1 || d == 1 then 1 else 0)
  {
    assert (2 * a + c) / 2 == a && (2 * b + d) / 2 == b;
    OrStep(2 * a + c, 2 * b + d);
  }

  lemma OrStep(x: nat, y: nat)
    ensures Or(x, y) == (if x % 2 == 1 || y % 2 == 1 then 1 else 0) + 2 * Or(x / 2, y / 2)
  {
  }

  /** Masking with 2^k - 1 is the remainder by 2^k. */
  lemma {:induction false} AndLow(x: nat, k: nat)
    ensures And(x, Pow2(k) - 1) == x % Pow2(k)
  {
    if k == 0 {
      AndZero(x);
    } else {
      var p := Pow2(k - 1);
      AndLow(x / 2, k - 1);
      assert (Pow2(k) - 1) / 2 == p - 1 && (Pow2(k) - 1) % 2 == 1;
      ModDouble(x, p);
      AndStep(x, Pow2(k) - 1);
    }
  }

  /** Masking with the complement of 2^k - 1 rounds down to a multiple of 2^k. */
  lemma {:induction false} AndHigh(x: nat, k: nat, w: nat)
    requires k <= w && x < Pow2(w)
    ensures Pow2(k) <= Pow2(w)
    ensures And(x, Pow2(w) - Pow2(k)) == x - x % Pow2(k)
  {
    if k == 0 {
      AndLow(x, w);
      DivModUnique(x, Pow2(w), 0, x);
    } else {
      var p, q := Pow2(k - 1), Pow2(w - 1);
      AndHigh(x / 2, k - 1, w - 1);
      assert (Pow2(w) - Pow2(k)) / 2 == q - p;
      ModDouble(x, p);
      AndStep(x, Pow2(w) - Pow2(k));
    }
  }

  lemma AndStep(x: nat, y: nat)
    ensures And(x, y) == (if x % 2 == 1 && y % 2 == 1 then 1 else 0) + 2 * And(x / 2, y / 2)
  {
  }

  lemma {:induction false} AndZero(x: nat)
    ensures And(x, 0) == 0
  {
    if x != 0 { AndZero(x / 2); }
  }

  lemma ModDouble(x: nat, p: nat)
    requires p >= 1
    ensures x % (2 * p) == x % 2 + 2 * ((x / 2) % p)
  {
    var q, r := (x / 2) / p, (x / 2) % p;
    assert x / 2 == q * p + r;
    assert x == q * (2 * p) + (2 * r + x % 2);
    DivModUnique(x, 2 * p, q, 2 * r + x % 2);
  }

  /** Shifted numbers and numbers below 2^k occupy disjoint bits: `|` is `+`. */
  lemma OrDisjoint(h: nat, k: nat, y: nat)
    requires y < Pow2(k)
    ensures Or(Shl(h, k), y) == Shl(h, k) + y
  {
    OrSplit(h, 0, k, 0, y);
    ShlTimes(0, k);
    OrZero(h);
    OrComm(0, y);
    OrZero(y);
  }

  lemma {:induction false} OrComm(x: nat, y: nat)
    ensures Or(x, y) == Or(y, x)
    decreases x + y
  {
    if x != 0 || y != 0 { OrComm(x / 2, y / 2); }
  }
}
