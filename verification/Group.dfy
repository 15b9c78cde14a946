/**
 The Pallas group. It is cyclic of prime order `Q`, so a point is written as its discrete
 logarithm: the identity is 0, addition is addition modulo `Q`. Nothing below computes a logarithm.
 */
module Group {
  import opened Field
  import opened Arithmetic

  type Base = x: nat | x < P
  type Scalar = x: nat | x < Q
  type Point = x: nat | x < Q

  const IDENTITY: Point := 0

  function Add(p: Point, q: Point): Point { if p + q < Q then p + q else p + q - Q }

  function Negate(s: Scalar): Scalar { if s == 0 then 0 else Q - s }

  /** `[s] p` */
  function Mul(s: Scalar, p: Point): Point
  {
    if s == 0 then IDENTITY else Add(p, Mul(s - 1, p))
  }

  /** `a * b` modulo `Q` is zero. */
  predicate ScalarZeroProduct(a: nat, b: nat) { ReduceScalar(Times(a, b)) == 0 }

  /** `Q` is prime; the group only needs that the scalars have no zero divisors. */
  ghost predicate NoScalarZeroDivisors()
  {
    forall a: Scalar, b: Scalar | ScalarZeroProduct(a, b) :: a == 0 || b == 0
  }

  /** The multiple of `Q` between an integer and its representative. */
  lemma ScalarQuotient(x: int) returns (k: int)
    ensures x == ReduceScalar(x) + k * 0x40000000000000000000000000000000224698fc0994a8dd8c46eb2100000001
  {
    k := x / 0x40000000000000000000000000000000224698fc0994a8dd8c46eb2100000001;
  }

  /** Only the representative is congruent and in range. */
  lemma ScalarUnique(x: int, k: int, r: int)
    requires 0 <= r < Q && x == r + k * 0x40000000000000000000000000000000224698fc0994a8dd8c46eb2100000001
    ensures ReduceScalar(x) == r
  {
    DivUnique(x, 0x40000000000000000000000000000000224698fc0994a8dd8c46eb2100000001, k, r);
  }

  lemma AddReduced(x: int, y: int)
    ensures Add(ReduceScalar(x), ReduceScalar(y)) == ReduceScalar(x + y)
  {
    var k := ScalarQuotient(x);
    var l := ScalarQuotient(y);
    var sum := ReduceScalar(x) + ReduceScalar(y);
    if sum < Q { ScalarUnique(x + y, k + l, sum); } else { ScalarUnique(x + y, k + l + 1, sum - Q); }
  }

  lemma {:induction false} ReduceFactor(x: int, y: nat)
    ensures ReduceScalar(Times(y, ReduceScalar(x))) == ReduceScalar(Times(y, x))
  {
    if y > 0 {
      ReduceFactor(x, y - 1);
      AddReduced(x, Times(y - 1, x));
      AddReduced(ReduceScalar(x), Times(y - 1, ReduceScalar(x)));
      ReduceScalarSmall(ReduceScalar(x));
    }
  }

  /** `[s] p` is multiplication modulo `Q`. */
  lemma {:induction false} MulIsProduct(s: Scalar, p: Point)
    ensures Mul(s, p) == ReduceScalar(Times(s, p))
  {
    if s > 0 {
      MulIsProduct(s - 1, p);
      ReduceScalarSmall(p);
      AddReduced(p, Times(s - 1, p));
    }
  }

  lemma TimesCommutes(a: int, b: int)
    ensures Times(a, b) == Times(b, a)
  {
    TimesIsProduct(a, b);
    TimesIsProduct(b, a);
  }

  lemma TimesAdds(a: int, b: int, g: int)
    ensures Times(a + b, g) == Times(a, g) + Times(b, g)
  {
    TimesIsProduct(a, g);
    TimesIsProduct(b, g);
    TimesIsProduct(a + b, g);
    MulDistributes(a, b, g);
  }

  lemma TimesSwap(a: int, b: int, g: int)
    ensures Times(a, Times(b, g)) == Times(b, Times(a, g))
  {
    TimesIsProduct(a, g);
    TimesIsProduct(b, g);
    TimesIsProduct(a, Times(b, g));
    TimesIsProduct(b, Times(a, g));
    Swap(a, b, g);
  }

  lemma Swap(a: int, b: int, g: int)
    ensures a * (b * g) == b * (a * g)
  {
    MulAssoc(a, b, g);
    MulAssoc(b, a, g);
  }

  lemma MulReduced(a: int, g: Point)
    ensures Mul(ReduceScalar(a), g) == ReduceScalar(Times(a, g))
  {
    MulIsProduct(ReduceScalar(a), g);
    ReduceFactor(a, g);
    TimesCommutes(a, g);
    TimesCommutes(ReduceScalar(a), g);
  }

  /** Scalar multiplication of a point other than the identity is injective. */
  lemma MulInjective(a: Scalar, b: Scalar, g: Point)
    requires NoScalarZeroDivisors() && g != IDENTITY && Mul(a, g) == Mul(b, g)
    ensures a == b
  {
    if a < b { Difference(b, a, g); }
    if b < a { Difference(a, b, g); }
  }

  lemma Difference(a: Scalar, b: Scalar, g: Point)
    requires b <= a && Mul(a, g) == Mul(b, g)
    ensures ScalarZeroProduct(a - b, g)
  {
    MulIsProduct(a, g);
    MulIsProduct(b, g);
    var k := ScalarQuotient(Times(a, g));
    var l := ScalarQuotient(Times(b, g));
    TimesAdds(a - b, b, g);
    ScalarUnique(Times(a - b, g), k - l, 0);
  }

  lemma AddCommutes(p: Point, q: Point)
    ensures Add(p, q) == Add(q, p)
  {}

  lemma AddAssociates(p: Point, q: Point, r: Point)
    ensures Add(Add(p, q), r) == Add(p, Add(q, r))
  {}

  lemma MulAdds(a: int, b: int, g: Point)
    ensures Add(Mul(ReduceScalar(a), g), Mul(ReduceScalar(b), g)) == Mul(ReduceScalar(a + b), g)
  {
    MulReduced(a, g);
    MulReduced(b, g);
    MulReduced(a + b, g);
    TimesAdds(a, b, g);
    AddReduced(Times(a, g), Times(b, g));
  }

  lemma MulTwice(a: Scalar, b: Scalar, g: Point)
    ensures Mul(a, Mul(b, g)) == ReduceScalar(Times(a, Times(b, g)))
  {
    MulIsProduct(b, g);
    MulIsProduct(a, Mul(b, g));
    ReduceFactor(Times(b, g), a);
  }

  lemma MulCommutes(a: Scalar, b: Scalar, g: Point)
    ensures Mul(a, Mul(b, g)) == Mul(b, Mul(a, g))
  {
    MulTwice(a, b, g);
    MulTwice(b, a, g);
    TimesSwap(a, b, g);
  }
}
