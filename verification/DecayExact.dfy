/**
 How close the truncated factor chains stay to the untruncated product of the same powers, and
 what follows: decay never grows with time, and the two chains differ by very little.
 */
module DecayExact {
  import opened Arithmetic
  import opened NativeDecay

  /** A product of reals, named so that equal factors give equal products. */
  function Prod(a: real, b: real): real { a * b }

  /** A Q64.64 product without truncation. */
  function TimesPower(f: real, p: nat): real { Prod(f, p as real / 18446744073709551616.0) }

  /** One step without truncation. */
  function ExactStep(f: real, bit: nat, i: nat): real
    requires i < REM_BITS
  {
    if bit == 1 then TimesPower(f, DecayPower(i)) else f
  }

  /** The product of the selected powers without any truncation, starting from `f`. */
  function Exact(f: real, r: nat, i: nat, n: nat): real
    requires i + n <= REM_BITS
    decreases n, r
  {
    if n == 0 then f else Exact(ExactStep(f, r % 2, i), r / 2, i + 1, n - 1)
  }

  /** The untruncated Q64.64 factor of `rem` seconds. */
  function ExactFactor(rem: nat): real { Exact(18446744073709551616.0, rem, 0, REM_BITS) }

  /** Number of set bits among the low `n`. */
  function Ones(r: nat, n: nat): (k: nat)
    ensures k <= n
    decreases n, r
  {
    if n == 0 then 0 else r % 2 + Ones(r / 2, n - 1)
  }

  // ---------------------------------------------------------------- the exact product is linear

  lemma TimesLinear(f: real, g: real, p: nat)
    ensures TimesPower(f + g, p) == TimesPower(f, p) + TimesPower(g, p)
  {
    RealDistributes(f, g, p as real / 18446744073709551616.0);
  }

  lemma RealDistributes(f: real, g: real, q: real)
    ensures Prod(f + g, q) == Prod(f, q) + Prod(g, q)
  {}

  lemma TimesScales(c: real, f: real, p: nat)
    ensures TimesPower(Prod(c, f), p) == Prod(c, TimesPower(f, p))
  {
    RealAssoc(c, f, p as real / 18446744073709551616.0);
  }

  lemma RealAssoc(a: real, b: real, c: real)
    ensures Prod(Prod(a, b), c) == Prod(a, Prod(b, c))
  {}

  lemma TimesShrinks(f: real, p: nat)
    requires f >= 0.0 && p < ONE
    ensures 0.0 <= TimesPower(f, p) <= f
  {
    RealMonotone(p as real / 18446744073709551616.0, 1.0, f);
  }

  lemma RealMonotone(a: real, b: real, c: real)
    requires 0.0 <= a <= b && 0.0 <= c
    ensures 0.0 <= Prod(c, a) <= Prod(c, b)
  {}

  lemma StepLinear(f: real, g: real, bit: nat, i: nat)
    requires i < REM_BITS
    ensures ExactStep(f + g, bit, i) == ExactStep(f, bit, i) + ExactStep(g, bit, i)
  {
    TimesLinear(f, g, DecayPower(i));
  }

  lemma StepShrinks(f: real, bit: nat, i: nat)
    requires i < REM_BITS && f >= 0.0
    ensures 0.0 <= ExactStep(f, bit, i) <= f
  {
    TimesShrinks(f, DecayPower(i));
  }

  lemma {:induction false} ExactLinear(f: real, g: real, r: nat, i: nat, n: nat)
    requires i + n <= REM_BITS
    ensures Exact(f + g, r, i, n) == Exact(f, r, i, n) + Exact(g, r, i, n)
    decreases n
  {
    if n > 0 {
      StepLinear(f, g, r % 2, i);
      ExactLinear(ExactStep(f, r % 2, i), ExactStep(g, r % 2, i), r / 2, i + 1, n - 1);
    }
  }

  lemma {:induction false} ExactShrinks(f: real, r: nat, i: nat, n: nat)
    requires i + n <= REM_BITS && f >= 0.0
    ensures 0.0 <= Exact(f, r, i, n) <= f
    decreases n
  {
    if n > 0 {
      StepShrinks(f, r % 2, i);
      ExactShrinks(ExactStep(f, r % 2, i), r / 2, i + 1, n - 1);
    }
  }

  lemma ExactMonotone(f: real, g: real, r: nat, i: nat, n: nat)
    requires i + n <= REM_BITS && f <= g
    ensures Exact(f, r, i, n) <= Exact(g, r, i, n)
  {
    ExactShrinks(g - f, r, i, n);
    ExactLinear(f, g - f, r, i, n);
    assert f + (g - f) == g;
  }

  /** The product scales with its starting value. */
  lemma {:induction false} ExactScale(f: real, c: real, g: real, r: nat, i: nat, n: nat)
    requires i + n <= REM_BITS && g == Prod(c, f)
    ensures Exact(g, r, i, n) == Prod(c, Exact(f, r, i, n))
    decreases n
  {
    if n > 0 {
      TimesScales(c, f, DecayPower(i));
      ExactScale(ExactStep(f, r % 2, i), c, ExactStep(g, r % 2, i), r / 2, i + 1, n - 1);
    }
  }

  lemma {:induction false} ExactSplit(f: real, r: nat, i: nat, m: nat, n: nat)
    requires i + m + n <= REM_BITS
    ensures Exact(f, r, i, m + n) == Exact(Exact(f, r, i, m), Shr(r, m), i + m, n)
    decreases m
  {
    if m > 0 {
      ExactSplit(ExactStep(f, r % 2, i), r / 2, i + 1, m - 1, n);
    }
  }

  lemma {:induction false} ExactLowBits(f: real, r: nat, i: nat, n: nat)
    requires i + n <= REM_BITS
    ensures Exact(f, r % Pow2(n), i, n) == Exact(f, r, i, n) && Ones(r % Pow2(n), n) == Ones(r, n)
    decreases n
  {
    if n > 0 {
      LowBits(r, n - 1);
      ExactLowBits(ExactStep(f, r % 2, i), r / 2, i + 1, n - 1);
    }
  }

  lemma {:induction false} OnesSplit(r: nat, m: nat, n: nat)
    ensures Ones(r, m + n) == Ones(r, m) + Ones(Shr(r, m), n)
    decreases m
  {
    if m > 0 {
      OnesSplit(r / 2, m - 1, n);
    }
  }

  // ---------------------------------------------------------------- truncation errors

  /** `f` lies below the exact `e` by less than `k` units, and equals it when `k` is 0. */
  ghost predicate Near(f: nat, e: real, k: nat)
  {
    f as real <= e && (if k == 0 then f as real == e else e < f as real + k as real)
  }

  /** Truncations behind a product of `m` powers: the first factor is taken over exactly. */
  function Truncations(m: nat): nat { if m <= 1 then 0 else m - 1 }

  lemma ScaleFloor(a: nat, b: nat)
    ensures Scale(a, b) as real <= TimesPower(a as real, b) < Scale(a, b) as real + 1.0
  {
    var x, q := a * b, Scale(a, b);
    assert x as real == a as real * b as real;
    assert q * 0x1_0000_0000_0000_0000 <= x < q * 0x1_0000_0000_0000_0000 + 0x1_0000_0000_0000_0000;
    assert (q * 0x1_0000_0000_0000_0000) as real == q as real * 18446744073709551616.0;
  }

  /** Multiplying two approximations adds their errors, and one for the new truncation. */
  lemma NearProduct(f: nat, e: real, k: nat, g: nat, d: real, l: nat)
    requires Near(f, e, k) && Near(g, d, l) && e <= 18446744073709551616.0 && d <= 18446744073709551616.0
    ensures Near(Scale(f, g), e * d / 18446744073709551616.0, k + l + 1)
  {
    var x, y := f as real, g as real;
    assert e * d - x * y == (e - x) * d + x * (d - y);
    RealBound(e - x, k as real, d);
    RealBound(d - y, l as real, x);
    ScaleFloor(f, g);
  }

  lemma RealBound(a: real, k: real, d: real)
    requires 0.0 <= a <= k && 0.0 <= d <= 18446744073709551616.0
    ensures 0.0 <= a * d <= k * 18446744073709551616.0
  {
    RealMonotone(a, k, d);
    RealMonotone(d, 18446744073709551616.0, k);
    assert Prod(d, a) == a * d;
  }

  lemma TimesNear(f: nat, e: real, k: nat, p: nat)
    requires Near(f, e, k) && e <= 18446744073709551616.0 && p < ONE
    ensures Near(Scale(f, p), TimesPower(e, p), k + 1)
  {
    NearProduct(f, e, k, p, p as real, 0);
  }

  /** One step of the bit chain adds a truncation exactly when its bit is set. */
  lemma StepNear(f: nat, e: real, k: nat, bit: nat, i: nat)
    requires i < REM_BITS && bit <= 1 && Near(f, e, k) && e <= 18446744073709551616.0
    ensures Near(Step(f, bit, i), ExactStep(e, bit, i), k + bit)
  {
    TimesNear(f, e, k, DecayPower(i));
  }

  /** The bit chain truncates once per set bit. */
  lemma {:induction false} ChainNear(f: nat, e: real, k: nat, r: nat, i: nat, n: nat)
    requires i + n <= REM_BITS && Near(f, e, k) && e <= 18446744073709551616.0
    ensures Near(Chain(f, r, i, n), Exact(e, r, i, n), k + Ones(r, n))
    decreases n
  {
    if n > 0 {
      StepNear(f, e, k, r % 2, i);
      StepShrinks(e, r % 2, i);
      ChainNear(Step(f, r % 2, i), ExactStep(e, r % 2, i), k + r % 2, r / 2, i + 1, n - 1);
    }
  }

  /** From `2^64` the first factor is exact, so one truncation fewer. */
  lemma {:induction false} ChainFromOneNear(r: nat, i: nat, n: nat)
    requires i + n <= REM_BITS
    ensures Near(Chain(ONE, r, i, n), Exact(18446744073709551616.0, r, i, n), Truncations(Ones(r, n)))
    decreases n
  {
    if n > 0 {
      if r % 2 == 1 {
        FirstStep(i);
        var p := DecayPower(i);
        ChainNear(p, p as real, 0, r / 2, i + 1, n - 1);
      } else {
        ChainFromOneNear(r / 2, i + 1, n - 1);
      }
    }
  }

  lemma FirstStep(i: nat)
    requires i < REM_BITS
    ensures Step(ONE, 1, i) == DecayPower(i) && ExactStep(18446744073709551616.0, 1, i) == DecayPower(i) as real
  {
    assert MulQ64(ONE, DecayPower(i)) == DecayPower(i);
  }

  lemma {:induction false} NoOnes(f: nat, e: real, r: nat, i: nat, n: nat)
    requires i + n <= REM_BITS && Ones(r, n) == 0
    ensures Chain(f, r, i, n) == f && Exact(e, r, i, n) == e
    decreases n
  {
    if n > 0 { NoOnes(f, e, r / 2, i + 1, n - 1); }
  }

  /** A table entry is as good as the bit chain of its digit. */
  lemma WindowFactorNear(r: nat, j: nat)
    requires j < WINDOWS
    ensures var c := r % 32; var m := Ones(r, WINDOW_BITS);
      && Near(WindowFactor(j, c), Exact(18446744073709551616.0, r, 5 * j, WINDOW_BITS), Truncations(m))
      && (m == 0 ==> WindowFactor(j, c) == ONE)
  {
    Pow2Five();
    ExactLowBits(18446744073709551616.0, r, 5 * j, WINDOW_BITS);
    var c := r % 32;
    ChainFromOneNear(c, 5 * j, WINDOW_BITS);
    if Ones(c, WINDOW_BITS) == 0 { NoOnes(ONE, 18446744073709551616.0, c, 5 * j, WINDOW_BITS); }
  }

  /** One window, `m` set bits after any windows before it: still one truncation fewer than set bits. */
  lemma WindowStepNear(f: nat, e: real, m: nat, r: nat, j: nat)
    requires j < WINDOWS && 0.0 <= e <= 18446744073709551616.0 && Near(f, e, Truncations(m)) && (m == 0 ==> f == ONE && e == 18446744073709551616.0)
    ensures var g := MulQ64(f, WindowFactor(j, r % 32)); var d := Exact(e, r, 5 * j, WINDOW_BITS);
      var k := m + Ones(r, WINDOW_BITS);
      0.0 <= d <= 18446744073709551616.0 && Near(g, d, Truncations(k)) && (k == 0 ==> g == ONE && d == 18446744073709551616.0)
  {
    var factor, k := WindowFactor(j, r % 32), Ones(r, WINDOW_BITS);
    var exact := Exact(18446744073709551616.0, r, 5 * j, WINDOW_BITS);
    var d := Exact(e, r, 5 * j, WINDOW_BITS);
    WindowFactorNear(r, j);
    ExactShrinks(e, r, 5 * j, WINDOW_BITS);
    ExactShrinks(18446744073709551616.0, r, 5 * j, WINDOW_BITS);
    var c := e / 18446744073709551616.0;
    ExactScale(18446744073709551616.0, c, e, r, 5 * j, WINDOW_BITS);
    if k == 0 { NoOnes(ONE, e, r, 5 * j, WINDOW_BITS); }
    WindowProductNear(f, e, m, factor, exact, k, c, d);
  }

  lemma RealCommute(c: real, x: real, e: real)
    requires c * 18446744073709551616.0 == e
    ensures e * x / 18446744073709551616.0 == c * x
  {
    assert e * x == c * x * 18446744073709551616.0;
  }

  lemma WindowProductNear(f: nat, e: real, m: nat, g: nat, x: real, k: nat, c: real, d: real)
    requires Near(f, e, Truncations(m)) && (m == 0 ==> f == ONE && e == 18446744073709551616.0) && e <= 18446744073709551616.0
    requires Near(g, x, Truncations(k)) && (k == 0 ==> g == ONE && d == e) && x <= 18446744073709551616.0
    requires Prod(c, 18446744073709551616.0) == e && d == Prod(c, x)
    ensures Near(MulQ64(f, g), d, Truncations(m + k)) && (m + k == 0 ==> MulQ64(f, g) == ONE && d == 18446744073709551616.0)
  {
    if m > 0 && k > 0 {
      NearProduct(f, e, Truncations(m), g, x, Truncations(k));
      RealCommute(c, x, e);
    }
  }

  lemma ShrWindow(r: nat)
    ensures Shr(r, WINDOW_BITS) == r / 32
  {
    Pow2Five();
    ShrIsDiv(r, WINDOW_BITS);
  }

  lemma {:induction false} WindowChainNear(f: nat, e: real, m: nat, r: nat, j: nat, n: nat)
    requires j + n <= WINDOWS && 0.0 <= e <= 18446744073709551616.0
    requires Near(f, e, Truncations(m)) && (m == 0 ==> f == ONE && e == 18446744073709551616.0)
    ensures Near(WindowChain(f, r, j, n), Exact(e, r, 5 * j, 5 * n), Truncations(m + Ones(r, 5 * n)))
    decreases n
  {
    if n > 0 {
      var rest := r / 32;
      var g := MulQ64(f, WindowFactor(j, r % 32));
      var d := Exact(e, r, 5 * j, WINDOW_BITS);
      WindowStepNear(f, e, m, r, j);
      WindowChainNear(g, d, m + Ones(r, WINDOW_BITS), rest, j + 1, n - 1);
      WindowSplit(e, r, j, n);
    }
  }

  /** The exact chain and the count of set bits, one window at a time. */
  lemma WindowSplit(e: real, r: nat, j: nat, n: nat)
    requires 0 < n && j + n <= WINDOWS
    ensures Exact(e, r, 5 * j, 5 * n) == Exact(Exact(e, r, 5 * j, WINDOW_BITS), r / 32, 5 * (j + 1), 5 * (n - 1))
    ensures Ones(r, 5 * n) == Ones(r, WINDOW_BITS) + Ones(r / 32, 5 * (n - 1))
  {
    ExactSplit(e, r, 5 * j, WINDOW_BITS, 5 * (n - 1));
    OnesSplit(r, WINDOW_BITS, 5 * (n - 1));
    ShrWindow(r);
    assert WINDOW_BITS + 5 * (n - 1) == 5 * n && 5 * j + WINDOW_BITS == 5 * (j + 1);
  }

  /** Both factors lie below the untruncated one, by less than the number of set bits minus one. */
  lemma FactorsNear(rem: nat)
    ensures Near(BitFactor(rem), ExactFactor(rem), Truncations(Ones(rem, REM_BITS)))
    ensures Near(WindowedFactor(rem), ExactFactor(rem), Truncations(Ones(rem, REM_BITS)))
  {
    ChainFromOneNear(rem, 0, REM_BITS);
    WindowChainNear(ONE, 18446744073709551616.0, 0, rem, 0, WINDOWS);
  }

  // ---------------------------------------------------------------- one second changes the factor

  const GAP: nat := 100_000_000_000

  /** The factors of `2^k - 1` seconds, truncated as the bit chain does. */
  function AllOnes(): (t: seq<nat>)
    ensures |t| == REM_BITS + 1
  {
    [
      18446744073709551616,
      18446743668527564940,
      18446742858163618286,
      18446741237435831776,
      18446737995980685947,
      18446731513072103050,
      18446718547261772302,
      18446692615668450967,
      18446640752591168758,
      18446537026874044750,
      18446329577189546898,
      18445914684819460021,
      18445084928074186957,
      18443425526557366908,
      18440107171371621630,
      18433472252015697821,
      18420209574359031572,
      18393712839225965018,
      18340833657616536776,
      18235530916649462688,
      18026735730664827786,
      17616290043757076458,
      16823221856891164908,
      15342587629488710137,
      12760787977407096879,
      8827449742726762044
    ]
  }

  /** `2^k - 1` seconds leave more than `2^k` seconds do, by far more than any truncation. */
  ghost predicate OnesStep(t: seq<nat>, k: nat)
    requires |t| == REM_BITS + 1 && k < REM_BITS
  {
    t[k + 1] == Scale(t[k], DecayPower(k)) && t[k] >= DecayPower(k) + GAP
  }

  lemma OnesStepEval(t: seq<nat>, k: nat, a: nat, b: nat, p: nat)
    requires |t| == REM_BITS + 1 && k < REM_BITS && t[k] == a && t[k + 1] == b && DecayPower(k) == p
    requires a * p / 0x1_0000_0000_0000_0000 == b && a >= p + GAP
    ensures OnesStep(t, k)
  {}

  lemma OnesSteps1(t: seq<nat>)
    requires t == AllOnes()
    ensures forall k | 0 <= k < 7 :: OnesStep(t, k)
  {
    OnesStepEval(t, 0, 18446744073709551616, 18446743668527564940, 18446743668527564940);
    OnesStepEval(t, 1, 18446743668527564940, 18446742858163618286, 18446743263345587163);
    OnesStepEval(t, 2, 18446742858163618286, 18446741237435831776, 18446742452981658309);
    OnesStepEval(t, 3, 18446741237435831776, 18446737995980685947, 18446740832253907398);
    OnesStepEval(t, 4, 18446737995980685947, 18446731513072103050, 18446737590798832767);
    OnesStepEval(t, 5, 18446731513072103050, 18446718547261772302, 18446731107890392267);
    OnesStepEval(t, 6, 18446718547261772302, 18446692615668450967, 18446718142080346313);
  }

  lemma OnesSteps2(t: seq<nat>)
    requires t == AllOnes()
    ensures forall k | 7 <= k < 13 :: OnesStep(t, k)
  {
    OnesStepEval(t, 7, 18446692615668450967, 18446640752591168758, 18446692210487594564);
    OnesStepEval(t, 8, 18446640752591168758, 18446537026874044750, 18446640347411451525);
    OnesStepEval(t, 9, 18446537026874044750, 18446329577189546898, 18446536621696605848);
    OnesStepEval(t, 10, 18446329577189546898, 18445914684819460021, 18446329172016664620);
    OnesStepEval(t, 11, 18445914684819460021, 18445084928074186957, 18445914279655690837);
    OnesStepEval(t, 12, 18445084928074186957, 18443425526557366908, 18445084522928643346);
  }

  lemma OnesSteps3(t: seq<nat>)
    requires t == AllOnes()
    ensures forall k | 13 <= k < 19 :: OnesStep(t, k)
  {
    OnesStepEval(t, 13, 18443425526557366908, 18440107171371621630, 18443425121448271984);
    OnesStepEval(t, 14, 18440107171371621630, 18433472252015697821, 18440106766335414243);
    OnesStepEval(t, 15, 18433472252015697821, 18420209574359031572, 18433471847125226169);
    OnesStepEval(t, 16, 18420209574359031572, 18393712839225965018, 18420209169759874097);
    OnesStepEval(t, 17, 18393712839225965018, 18340833657616536776, 18393712435208807257);
    OnesStepEval(t, 18, 18340833657616536776, 18235530916649462688, 18340833254760868098);
  }

  lemma OnesSteps4(t: seq<nat>)
    requires t == AllOnes()
    ensures forall k | 19 <= k < 25 :: OnesStep(t, k)
  {
    OnesStepEval(t, 19, 18235530916649462688, 18026735730664827786, 18235530516106764452);
    OnesStepEval(t, 20, 18026735730664827786, 17616290043757076458, 18026735334708307356);
    OnesStepEval(t, 21, 17616290043757076458, 16823221856891164908, 17616289656815978922);
    OnesStepEval(t, 22, 16823221856891164908, 15342587629488710137, 16823221487369777986);
    OnesStepEval(t, 23, 15342587629488710137, 12760787977407096879, 15342587292489394070);
    OnesStepEval(t, 24, 12760787977407096879, 8827449742726762044, 12760787697116905635);
  }

  ghost predicate OnesTable(t: seq<nat>)
  {
    && |t| == REM_BITS + 1 && t[0] == ONE && t[REM_BITS] >= 0x4000_0000_0000_0000
    && forall k | 0 <= k < REM_BITS :: OnesStep(t, k)
  }

  lemma OnesTableExists() returns (t: seq<nat>)
    ensures OnesTable(t)
  {
    t := AllOnes();
    OnesSteps1(t);
    OnesSteps2(t);
    OnesSteps3(t);
    OnesSteps4(t);
  }

  lemma OnesStepBounds(t: seq<nat>, i: nat)
    requires OnesTable(t) && i < REM_BITS
    ensures t[i + 1] <= t[i] && t[i + 1] as real <= TimesPower(t[i] as real, DecayPower(i))
  {
    assert OnesStep(t, i);
    ScaleFloor(t[i], DecayPower(i));
  }

  lemma {:induction false} OnesBound(t: seq<nat>, i: nat)
    requires OnesTable(t) && i <= REM_BITS
    ensures t[i] <= ONE
  {
    if i > 0 {
      OnesStepBounds(t, i - 1);
      OnesBound(t, i - 1);
    }
  }

  /** A product of some of the powers is at least the product of all of them. */
  lemma {:induction false} ExactLowerBound(t: seq<nat>, f: real, r: nat, i: nat, n: nat)
    requires OnesTable(t) && i + n == REM_BITS && f >= 0.0
    ensures Prod(Exact(f, r, i, n), t[i] as real) >= Prod(f, t[REM_BITS] as real)
    decreases n
  {
    if n > 0 {
      var g := ExactStep(f, r % 2, i);
      StepShrinks(f, r % 2, i);
      ExactShrinks(g, r / 2, i + 1, n - 1);
      ExactLowerBound(t, g, r / 2, i + 1, n - 1);
      OnesStepBounds(t, i);
      LowerBoundStep(Exact(g, r / 2, i + 1, n - 1), t[i] as real, t[i + 1] as real, r % 2, DecayPower(i), f, g, t[REM_BITS] as real);
    }
  }

  lemma LowerBoundStep(x: real, a: real, b: real, bit: nat, p: nat, f: real, g: real, l: real)
    requires x >= 0.0 && 0.0 <= b <= a && b <= TimesPower(a, p) && p > 0
    requires g == if bit == 1 then TimesPower(f, p) else f
    requires Prod(x, b) >= Prod(g, l)
    ensures Prod(x, a) >= Prod(f, l)
  {
    if bit == 1 {
      RealMonotone(b, TimesPower(a, p), x);
      var q := p as real / 18446744073709551616.0;
      assert (x * a - f * l) * q == x * (a * q) - (f * q) * l;
    } else {
      RealMonotone(b, a, x);
    }
  }

  /** So no product of powers takes more than three quarters away. */
  lemma ExactQuarter(t: seq<nat>, f: real, r: nat, i: nat, n: nat)
    requires OnesTable(t) && i + n == REM_BITS && f >= 0.0
    ensures Exact(f, r, i, n) >= f / 4.0
  {
    var x := Exact(f, r, i, n);
    ExactLowerBound(t, f, r, i, n);
    ExactShrinks(f, r, i, n);
    OnesBound(t, i);
    RealMonotone(t[i] as real, 18446744073709551616.0, x);
    RealMonotone(4611686018427387904.0, t[REM_BITS] as real, f);
  }

  /** One second more lowers the untruncated factor by far more than any truncation. */
  lemma {:induction false} ExactIncrement(t: seq<nat>, r: nat, i: nat, n: nat)
    requires OnesTable(t) && i + n == REM_BITS && r + 1 < Pow2(n)
    ensures Exact(18446744073709551616.0, r + 1, i, n) + 24.0 <= Exact(t[i] as real, r, i, n)
    decreases n
  {
    if r % 2 == 0 {
      IncrementEven(t, r, i, n);
    } else {
      assert (r + 1) / 2 == r / 2 + 1;
      ExactIncrement(t, r / 2, i + 1, n - 1);
      OnesStepBounds(t, i);
      ExactMonotone(t[i + 1] as real, TimesPower(t[i] as real, DecayPower(i)), r / 2, i + 1, n - 1);
    }
  }

  lemma IncrementEven(t: seq<nat>, r: nat, i: nat, n: nat)
    requires OnesTable(t) && i + n == REM_BITS && 0 < n && r % 2 == 0
    ensures Exact(18446744073709551616.0, r + 1, i, n) + 24.0 <= Exact(t[i] as real, r, i, n)
  {
    var a, p := t[i] as real, DecayPower(i) as real;
    assert OnesStep(t, i);
    assert (r + 1) / 2 == r / 2;
    assert TimesPower(18446744073709551616.0, DecayPower(i)) == p;
    ExactLinear(p, a - p, r / 2, i + 1, n - 1);
    ExactQuarter(t, a - p, r / 2, i + 1, n - 1);
    assert p + (a - p) == a;
  }
}
