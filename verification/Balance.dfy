/**
 Value commitments, the binding key and the balance of a bundle: what the actions decay out of the
 spent notes is what they put into the created ones.
 */
module Balance {
  import opened Field
  import opened Group
  import opened Hashing
  import opened Notes
  import opened Arithmetic
  import opened ActionCircuit

  /** `to_scalar`, with its truncation to 64 bits. */
  function ToScalar(value: int): Scalar
  {
    if value < 0 then Negate((0 - value) % 0x1_0000_0000_0000_0000) else value % 0x1_0000_0000_0000_0000
  }

  /** For differences of 64-bit values nothing is truncated. */
  lemma ToScalarExact(value: int)
    requires -0x1_0000_0000_0000_0000 < value < 0x1_0000_0000_0000_0000
    ensures ToScalar(value) == ReduceScalar(value)
  {
    if value < 0 { ScalarUnique(value, -1, Q + value); } else { ReduceScalarSmall(value); }
  }

  /** `value_commitment`, natively. */
  function NativeCommitment(c: Crypto, value: int, rcv: Scalar): Point
  {
    Add(Mul(ToScalar(value), c.V), Mul(rcv, c.R))
  }

  /** The native commitment is the one the circuit opens. */
  lemma NativeCommitmentAgrees(c: Crypto, value: int, rcv: Scalar)
    requires -0x1_0000_0000_0000_0000 < value < 0x1_0000_0000_0000_0000
    ensures NativeCommitment(c, value, rcv) == ValueCommitment(c, value, rcv)
  {
    ToScalarExact(value);
  }

  /** The sum of the value commitments, `bvk` for a value balance of 0. */
  function SumPoints(points: seq<Point>): Point
  {
    if points == [] then IDENTITY else Add(SumPoints(points[..|points| - 1]), points[|points| - 1])
  }

  function SumScalars(scalars: seq<Scalar>): Scalar
  {
    if scalars == [] then 0 else ReduceScalar(SumScalars(scalars[..|scalars| - 1]) + scalars[|scalars| - 1])
  }

  function SumInts(s: seq<int>): int
  {
    if s == [] then 0 else SumInts(s[..|s| - 1]) + s[|s| - 1]
  }

  /** The commitments open to these values and blindings. */
  predicate Commits(c: Crypto, nets: seq<int>, rcvs: seq<Scalar>, cvs: seq<Point>)
  {
    && |nets| == |cvs| && |rcvs| == |cvs|
    && forall i | 0 <= i < |cvs| :: cvs[i] == ValueCommitment(c, nets[i], rcvs[i])
  }

  /** Commitments add up to the commitment of the sums. */
  lemma {:induction false} CommitmentsAdd(c: Crypto, nets: seq<int>, rcvs: seq<Scalar>, cvs: seq<Point>)
    requires Commits(c, nets, rcvs, cvs)
    ensures SumPoints(cvs) == ValueCommitment(c, SumInts(nets), SumScalars(rcvs))
  {
    if cvs == [] {
      NothingCommitted(c);
    } else {
      var n := |cvs| - 1;
      CommitmentsAdd(c, nets[..n], rcvs[..n], cvs[..n]);
      CommitmentAdds(c, SumInts(nets[..n]), SumScalars(rcvs[..n]), nets[n], rcvs[n]);
    }
  }

  lemma NothingCommitted(c: Crypto)
    ensures ValueCommitment(c, 0, 0) == IDENTITY
  {
    ReduceScalarSmall(0);
  }

  lemma CommitmentAdds(c: Crypto, a: int, r: Scalar, b: int, s: Scalar)
    ensures Add(ValueCommitment(c, a, r), ValueCommitment(c, b, s)) == ValueCommitment(c, a + b, ReduceScalar(r + s))
  {
    MulAdds(a, b, c.V);
    ReduceScalarSmall(r);
    ReduceScalarSmall(s);
    MulAdds(r, s, c.R);
    Regroup(Mul(ReduceScalar(a), c.V), Mul(r, c.R), Mul(ReduceScalar(b), c.V), Mul(s, c.R));
  }

  lemma Regroup(p: Point, q: Point, p': Point, q': Point)
    ensures Add(Add(p, q), Add(p', q')) == Add(Add(p, p'), Add(q, q'))
  {
    AddAssociates(p, q, Add(p', q'));
    AddAssociates(q, p', q');
    AddCommutes(q, p');
    AddAssociates(p', q, q');
    AddAssociates(p, p', Add(q, q'));
  }

  /**
   Nobody knows a relation between `V` and `R`. Stated for one pair of scalars, because relations
   exist: it says that this pair, which the parties did compute, is not one.
   */
  ghost predicate NoRelation(c: Crypto, a: Scalar, b: Scalar)
  {
    Add(Mul(a, c.V), Mul(b, c.R)) == IDENTITY ==> a == 0 && b == 0
  }

  /** The pair the commitments of a bundle and the key of its binding signature give away. */
  ghost predicate NoBundleRelation(c: Crypto, nets: seq<int>, rcvs: seq<Scalar>, bsk: Scalar)
  {
    NoRelation(c, ReduceScalar(SumInts(nets)), ReduceScalar(SumScalars(rcvs) - bsk))
  }

  /** Whoever knows the key of the sum as a multiple of `R` has committed to values that cancel. */
  lemma BindingBalances(c: Crypto, nets: seq<int>, rcvs: seq<Scalar>, cvs: seq<Point>, bsk: Scalar)
    requires Commits(c, nets, rcvs, cvs)
    requires SumPoints(cvs) == Mul(bsk, c.R) && NoBundleRelation(c, nets, rcvs, bsk)
    ensures ReduceScalar(SumInts(nets)) == 0
  {
    CommitmentsAdd(c, nets, rcvs, cvs);
    OnlyTrivial(c, SumInts(nets), SumScalars(rcvs), bsk);
  }

  lemma OnlyTrivial(c: Crypto, net: int, r: Scalar, bsk: Scalar)
    requires ValueCommitment(c, net, r) == Mul(bsk, c.R) && NoRelation(c, ReduceScalar(net), ReduceScalar(r - bsk))
    ensures ReduceScalar(net) == 0
  {
    Cancel(c, net, r, bsk);
  }

  lemma Cancel(c: Crypto, net: int, r: Scalar, s: Scalar)
    requires ValueCommitment(c, net, r) == Mul(s, c.R)
    ensures Add(Mul(ReduceScalar(net), c.V), Mul(ReduceScalar(r - s), c.R)) == IDENTITY
  {
    MulSubtracts(r, s, c.R);
    MulSubtracts(s, s, c.R);
    Shift(Mul(ReduceScalar(net), c.V), Mul(r, c.R), Mul(s, c.R), Mul(ReduceScalar(0 - s), c.R));
  }

  lemma MulSubtracts(r: Scalar, s: Scalar, g: Point)
    ensures Add(Mul(r, g), Mul(ReduceScalar(0 - s), g)) == Mul(ReduceScalar(r - s), g)
    ensures r == s ==> Mul(ReduceScalar(r - s), g) == IDENTITY
  {
    var minus: int := 0 - s;
    ReduceScalarSmall(r);
    MulAdds(r, minus, g);
    assert r + minus == r - s;
    ReduceScalarSmall(0);
  }

  lemma Shift(v: Point, r: Point, s: Point, minus: Point)
    requires Add(v, r) == s && Add(s, minus) == IDENTITY
    ensures Add(v, Add(r, minus)) == IDENTITY
  {
    AddAssociates(v, r, minus);
  }

  // ---------------------------------------------------------------- conservation

  /** An action with the witness behind it. */
  datatype Spend = Spend(inst: Instance, x: Witness)

  function Nets(h: seq<Spend>): (s: seq<int>)
    ensures |s| == |h|
  {
    seq(|h|, i requires 0 <= i < |h| => h[i].x.Net())
  }

  function Rcvs(h: seq<Spend>): (s: seq<Scalar>)
    ensures |s| == |h|
  {
    seq(|h|, i requires 0 <= i < |h| => h[i].x.rcv)
  }

  function Sum(f: Spend -> nat, h: seq<Spend>): nat
  {
    if h == [] then 0 else Sum(f, h[..|h| - 1]) + f(h[|h| - 1])
  }

  lemma {:induction false} SumAppend(f: Spend -> nat, a: seq<Spend>, b: seq<Spend>)
    ensures Sum(f, a + b) == Sum(f, a) + Sum(f, b)
    decreases |b|
  {
    if b == [] {
      assert a + b == a;
    } else {
      var n := |b| - 1;
      assert (a + b)[..|a + b| - 1] == a + b[..n];
      SumAppend(f, a, b[..n]);
    }
  }

  function Decayed(r: Spend): nat { r.x.decayed }
  function Created(r: Spend): nat { r.x.newValue }
  function Spent(r: Spend): nat { r.x.value }

  /** The actions that satisfy the circuit. */
  ghost function Satisfying(c: Crypto): iset<Spend>
  {
    iset r: Spend | ActionHolds(c, r.inst, r.x)
  }

  ghost predicate AllHold(c: Crypto, h: seq<Spend>)
  {
    forall r | r in h :: r in Satisfying(c)
  }

  /** The nets of the actions add up to the difference of the sums, and stay far from the modulus. */
  lemma {:induction false} NetsAdd(c: Crypto, h: seq<Spend>)
    requires NoZeroDivisors() && AllHold(c, h)
    ensures SumInts(Nets(h)) == Sum(Decayed, h) - Sum(Created, h)
    ensures Sum(Decayed, h) <= Sum(Spent, h)
    ensures Sum(Decayed, h) <= |h| * 0x8000_0000_0000_0000 && Sum(Created, h) <= |h| * 0x8000_0000_0000_0000
    decreases |h|
  {
    if h != [] {
      var n := |h| - 1;
      NetsAdd(c, h[..n]);
      assert h[n] in Satisfying(c);
      ActionSound(c, h[n].inst, h[n].x);
      assert Nets(h)[..n] == Nets(h[..n]);
    }
  }

  /**
   Conservation: if every action satisfies the circuit and the committed nets cancel, the decayed
   values of the spent notes and the values of the created notes are the same integer.
   */
  lemma BundleConservation(c: Crypto, h: seq<Spend>)
    requires NoZeroDivisors() && AllHold(c, h) && |h| < 0x1_0000_0000_0000_0000
    requires ReduceScalar(SumInts(Nets(h))) == 0
    ensures Sum(Decayed, h) == Sum(Created, h) && Sum(Created, h) <= Sum(Spent, h)
  {
    NetsAdd(c, h);
    SumsMeet(Sum(Decayed, h), Sum(Created, h), |h|, SumInts(Nets(h)));
  }

  /** Sums of fewer than 2^64 values below 2^63 cannot differ by a multiple of the group order. */
  lemma SumsMeet(decayed: nat, created: nat, n: nat, net: int)
    requires n < 0x1_0000_0000_0000_0000 && net == decayed - created && ReduceScalar(net) == 0
    requires decayed <= n * 0x8000_0000_0000_0000 && created <= n * 0x8000_0000_0000_0000
    ensures decayed == created
  {
    var k := ScalarQuotient(net);
    assert k == 0;
  }
}
