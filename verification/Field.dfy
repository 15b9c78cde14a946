/**
 The Pallas base field as the circuit sees it: cells hold integers below the modulus, and a
 constraint is an integer polynomial that must vanish modulo it.
 */
module Field {
  import opened Arithmetic

  /** The Pallas base modulus: cells and hashes. */
  const P: int := 0x40000000000000000000000000000000224698fc094cf91b992d30ed00000001

  /** The Pallas scalar modulus, the order of the curve: `P < Q`. */
  const Q: int := 0x40000000000000000000000000000000224698fc0994a8dd8c46eb2100000001

  /** A field element as its representative. */
  function Reduce(x: int): (r: nat)
    ensures r < P
  {
    x % 0x40000000000000000000000000000000224698fc094cf91b992d30ed00000001
  }

  function ReduceScalar(x: int): (r: nat)
    ensures r < Q
  {
    x % 0x40000000000000000000000000000000224698fc0994a8dd8c46eb2100000001
  }

  /** The constraint `x = 0` in the field. */
  predicate Zero(x: int) { Reduce(x) == 0 }

  /** An integer below the modulus in absolute value is zero in the field only if it is zero. */
  lemma ZeroSmall(x: int)
    requires Zero(x) && -P < x < P
    ensures x == 0
  {}

  lemma ReduceSmall(x: nat)
    requires x < P
    ensures Reduce(x) == x
  {}

  lemma ReduceScalarSmall(x: nat)
    requires x < Q
    ensures ReduceScalar(x) == x
  {}

  /** The multiple of `P` between an integer and its representative. */
  lemma Quotient(x: int) returns (k: int)
    ensures x == Reduce(x) + k * 0x40000000000000000000000000000000224698fc094cf91b992d30ed00000001
  {
    k := x / 0x40000000000000000000000000000000224698fc094cf91b992d30ed00000001;
  }

  /** Only the representative is congruent and in range. */
  lemma ReduceUnique(x: int, k: int, r: int)
    requires 0 <= r < P && x == r + k * 0x40000000000000000000000000000000224698fc094cf91b992d30ed00000001
    ensures Reduce(x) == r
  {
    DivUnique(x, 0x40000000000000000000000000000000224698fc094cf91b992d30ed00000001, k, r);
  }

  lemma ZeroNegated(x: int)
    ensures Zero(x) <==> Zero(-x)
  {
    if Zero(x) {
      var k := Quotient(x);
      ReduceUnique(-x, -k, 0);
    }
    if Zero(-x) {
      var k := Quotient(-x);
      ReduceUnique(x, -k, 0);
    }
  }

  /** A cell that is fixed by an equation holds the representative of the other side. */
  lemma ZeroSolved(x: nat, y: int)
    requires x < P
    ensures Zero(x - y) <==> x == Reduce(y)
  {}

  /** The product of two polynomials in a constraint, as repeated addition. */
  function Times(a: int, b: int): int
    decreases if a < 0 then 0 - a else a
  {
    if a == 0 then 0 else if a > 0 then b + Times(a - 1, b) else Times(a + 1, b) - b
  }

  lemma {:induction false} TimesIsProduct(a: int, b: int)
    ensures Times(a, b) == a * b
    decreases if a < 0 then 0 - a else a
  {
    if a > 0 { TimesIsProduct(a - 1, b); }
    if a < 0 { TimesIsProduct(a + 1, b); }
  }

  lemma {:induction false} TimesNegated(a: int, b: int)
    ensures Times(a, 0 - b) == 0 - Times(a, b)
    decreases if a < 0 then 0 - a else a
  {
    if a > 0 { TimesNegated(a - 1, b); }
    if a < 0 { TimesNegated(a + 1, b); }
  }

  lemma {:induction false} TimesZero(a: int)
    ensures Times(a, 0) == 0
    decreases if a < 0 then 0 - a else a
  {
    if a > 0 { TimesZero(a - 1); }
    if a < 0 { TimesZero(a + 1); }
  }

  predicate ZeroProduct(a: nat, b: nat) { Zero(Times(a, b)) }

  /** `P` is prime; the circuit only needs that the field has no zero divisors. */
  ghost predicate NoZeroDivisors()
  {
    forall a: nat, b: nat | a < P && b < P && ZeroProduct(a, b) :: a == 0 || b == 0
  }

  /** `x * (1 - x) = 0` makes a cell boolean. */
  lemma BooleanCell(x: nat)
    requires NoZeroDivisors() && x < P && Zero(Times(x, 1 - x as int))
    ensures x <= 1
  {
    if x > 1 {
      TimesNegated(x, x - 1);
      ZeroNegated(Times(x, x - 1));
      assert ZeroProduct(x, x - 1);
    }
  }

  /** `x^2 = 1` makes a cell a sign. */
  lemma SignCell(x: nat)
    requires NoZeroDivisors() && x < P && Zero(Times(x, x) - 1)
    ensures x == 1 || x == P - 1
  {
    if x == 0 {
      ZeroSmall(-1);
    } else if x < P - 1 {
      Squares(x);
      assert ZeroProduct(x - 1, x + 1);
    }
  }

  lemma Squares(x: int)
    ensures Times(x - 1, x + 1) == Times(x, x) - 1
  {
    TimesIsProduct(x, x);
    TimesIsProduct(x - 1, x + 1);
  }
}
