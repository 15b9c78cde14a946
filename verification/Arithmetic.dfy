/** Integer facts the other modules share: powers of two, division, and rounding down. */
module Arithmetic {

  function Pow2(n: nat): (r: nat)
    ensures r > 0
  {
    if n == 0 then 1 else 2 * Pow2(n - 1)
  }

  lemma {:induction false} Pow2Add(m: nat, n: nat)
    ensures Pow2(m + n) == Pow2(m) * Pow2(n)
  {
    if m > 0 {
      Pow2Add(m - 1, n);
      MulAssoc(2, Pow2(m - 1), Pow2(n));
    }
  }

  lemma {:induction false} Pow2Monotone(m: nat, n: nat)
    requires m <= n
    ensures Pow2(m) <= Pow2(n)
    decreases n
  {
    if m < n { Pow2Monotone(m, n - 1); }
  }

  lemma Pow2Five()
    ensures Pow2(5) == 32
  {
    assert Pow2(3) == 8;
  }

  /** The powers that appear as constants in the source. */
  lemma Pow2Values()
    ensures Pow2(5) == 32 && Pow2(7) == 128 && Pow2(10) == 1024 && Pow2(25) == 0x200_0000
    ensures Pow2(40) == 0x100_0000_0000 && Pow2(59) == 0x800_0000_0000_0000
    ensures Pow2(63) == 0x8000_0000_0000_0000 && Pow2(64) == 0x1_0000_0000_0000_0000
    ensures Pow2(70) == 0x40_0000_0000_0000_0000
  {
    assert Pow2(10) == 0x400;
    assert Pow2(20) == 0x100000;
    assert Pow2(30) == 0x40000000;
    assert Pow2(40) == 0x10000000000;
    assert Pow2(50) == 0x4000000000000;
    assert Pow2(60) == 0x1000000000000000;
    assert Pow2(70) == 0x400000000000000000;
  }

  lemma MulAssoc(a: int, b: int, c: int)
    ensures a * b * c == a * (b * c)
  {}

  lemma MulMonotone(a: nat, b: nat, c: nat)
    requires a <= b
    ensures a * c <= b * c
  {}

  lemma MulDistributes(a: int, b: int, c: int)
    ensures (a + b) * c == a * c + b * c
    ensures c * (a + b) == c * a + c * b
  {}

  /** Quotient and remainder are the only pair with `0 <= r < d`. */
  lemma DivUnique(x: int, d: int, q: int, r: int)
    requires d > 0 && 0 <= r < d && x == q * d + r
    ensures q == x / d && r == x % d
  {
    var k := x / d - q;
    assert k * d == r - x % d by { MulDistributes(x / d, -q, d); assert x == d * (x / d) + x % d; }
    if k > 0 { MulMonotone(1, k, d); }
  }

  lemma DivNonnegative(x: nat, d: nat)
    requires d > 0
    ensures 0 <= x / d
  {
    MulNegative(x / d, d);
  }

  lemma MulNegative(q: int, d: int)
    requires d > 0
    ensures q < 0 ==> q * d <= 0 - d
  {
    if q < 0 { MulMonotone(1, 0 - q, d); }
  }

  lemma DivMonotone(x: int, y: int, d: int)
    requires d > 0 && x <= y
    ensures x / d <= y / d
  {
    if x / d > y / d {
      MulMonotone(1, x / d - y / d, d);
      MulDistributes(x / d, -(y / d), d);
    }
  }

  /** Dividing twice is dividing by the product. */
  lemma DivDiv(x: nat, a: nat, b: nat)
    requires a > 0 && b > 0
    ensures a * b > 0 && x / a / b == x / (a * b)
  {
    var q, r := x / a, x % a;
    var s, t := q / b, q % b;
    calc {
      x;
      a * q + r;
      a * (b * s + t) + r;
      { MulDistributes(b * s, t, a); MulAssoc(a, b, s); }
      (a * b) * s + (a * t + r);
    }
    MulMonotone(t + 1, b, a);
    assert a * (t + 1) == a * t + a;
    DivUnique(x, a * b, s, a * t + r);
  }

  /** The low bits of a number, bit by bit: `x mod 2m` ends in `x mod 2` and continues with `(x / 2) mod m`. */
  lemma ModDouble(x: nat, m: nat)
    requires m > 0
    ensures x % (2 * m) == x % 2 + 2 * (x / 2 % m)
  {
    var h := x / 2;
    assert h == m * (h / m) + h % m;
    assert x == (2 * m) * (h / m) + (x % 2 + 2 * (h % m)) by {
      MulAssoc(2, m, h / m);
    }
    DivUnique(x, 2 * m, h / m, x % 2 + 2 * (h % m));
  }

  lemma {:induction false} LowBits(x: nat, n: nat)
    ensures x % Pow2(n + 1) % 2 == x % 2
    ensures x % Pow2(n + 1) / 2 == x / 2 % Pow2(n)
  {
    ModDouble(x, Pow2(n));
  }

  /** `x >> n`, one bit at a time. */
  function Shr(x: nat, n: nat): (r: nat)
    decreases n, x
  {
    if n == 0 then x else Shr(x / 2, n - 1)
  }

  lemma {:induction false} ShrIsDiv(x: nat, n: nat)
    ensures Shr(x, n) == x / Pow2(n)
  {
    if n > 0 {
      ShrIsDiv(x / 2, n - 1);
      DivPow2Succ(x, n - 1);
    }
  }

  /** Bit `i` of `r`, `(r >> i) & 1`. */
  function Bit(r: nat, i: nat): nat
  {
    if i == 0 then r % 2 else Bit(r / 2, i - 1)
  }

  lemma {:induction false} BitBound(r: nat, i: nat)
    ensures Bit(r, i) <= 1
    decreases i
  {
    if i > 0 { BitBound(r / 2, i - 1); }
  }

  lemma {:induction false} ShrStep(x: nat, n: nat)
    ensures Shr(x, n) / 2 == Shr(x, n + 1) && Shr(x, n) % 2 == Bit(x, n)
    decreases n
  {
    if n > 0 { ShrStep(x / 2, n - 1); }
  }

  lemma DivPow2Succ(x: nat, n: nat)
    ensures x / 2 / Pow2(n) == x / Pow2(n + 1)
    ensures x / Pow2(n) / 2 == x / Pow2(n + 1)
  {
    DivDiv(x, 2, Pow2(n));
    DivDiv(x, Pow2(n), 2);
  }

  lemma DivPow2Add(x: nat, m: nat, n: nat)
    ensures x / Pow2(m) / Pow2(n) == x / Pow2(m + n)
  {
    DivDiv(x, Pow2(m), Pow2(n));
    Pow2Add(m, n);
  }

  lemma DivSmall(x: nat, d: nat)
    requires x < d
    ensures x / d == 0 && x % d == x
  {}

  lemma {:induction false} BitIsShift(r: nat, i: nat)
    ensures Bit(r, i) == r / Pow2(i) % 2
  {
    if i > 0 {
      BitIsShift(r / 2, i - 1);
      DivPow2Succ(r, i - 1);
    }
  }
}
