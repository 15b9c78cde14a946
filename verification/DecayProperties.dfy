/**
 What both decays promise: a value never grows with time, not even across a year boundary; the
 two variants stay within a few units of each other; and where they are bit-identical.
 */
module DecayProperties {
  import opened Widths
  import opened Arithmetic
  import opened NativeDecay
  import opened DecayExact

  // ---------------------------------------------------------------- monotonicity

  lemma RoundMonotone(s: nat, f: nat, s': nat, f': nat)
    requires s <= s' && f <= f'
    ensures RoundHalfUp(s, f) <= RoundHalfUp(s', f')
  {
    MulMonotone(s, s', f);
    MulMonotone(f, f', s');
    DivMonotone(s * f + HALF, s' * f' + HALF, ONE);
  }

  /** One second more gives a strictly smaller factor, in both chains. */
  lemma FactorsDecrease(rem: nat)
    requires rem + 1 < 0x200_0000
    ensures BitFactor(rem + 1) < BitFactor(rem) && WindowedFactor(rem + 1) < WindowedFactor(rem)
  {
    var t := OnesTableExists();
    Pow2Values();
    ExactIncrement(t, rem, 0, REM_BITS);
    FactorsNear(rem);
    FactorsNear(rem + 1);
  }

  lemma {:induction false} ChainSplit(f: nat, r: nat, i: nat, m: nat, n: nat)
    requires i + m + n <= REM_BITS
    ensures Chain(f, r, i, m + n) == Chain(Chain(f, r, i, m), Shr(r, m), i + m, n)
    decreases m
  {
    if m > 0 { ChainSplit(Step(f, r % 2, i), r / 2, i + 1, m - 1, n); }
  }

  /** Leading zero bits only move the chain on. */
  lemma {:induction false} ChainZeros(f: nat, r: nat, i: nat, k: nat, n: nat)
    requires i + k + n <= REM_BITS
    ensures Chain(f, r * Pow2(k), i, k + n) == Chain(f, r, i + k, n)
    decreases k
  {
    if k > 0 {
      var x := r * Pow2(k - 1);
      assert r * Pow2(k) == 2 * x by { MulAssoc(2, r, Pow2(k - 1)); MulAssoc(r, 2, Pow2(k - 1)); }
      ChainZeros(f, r, i + 1, k - 1, n);
      ChainEven(f, x, i, k + n - 1);
    }
  }

  lemma ChainEven(f: nat, x: nat, i: nat, n: nat)
    requires i + 1 + n <= REM_BITS
    ensures Chain(f, 2 * x, i, n + 1) == Chain(f, x, i + 1, n)
  {
    assert 2 * x % 2 == 0 && 2 * x / 2 == x;
  }

  lemma {:induction false} ChainZero(f: nat, i: nat, n: nat)
    requires i + n <= REM_BITS
    ensures Chain(f, 0, i, n) == f
    decreases n
  {
    if n > 0 { ChainZero(f, i + 1, n - 1); }
  }

  /** The next set bit after `k` zero bits: one evaluated step of a chain. */
  lemma ChainStep(f: nat, r: nat, i: nat, k: nat, n: nat, p: nat, g: nat)
    requires i + k + 1 + n <= REM_BITS
    requires p == DecayPower(i + k) && g == f * p / 0x1_0000_0000_0000_0000
    ensures Chain(f, (2 * r + 1) * Pow2(k), i, k + 1 + n) == Chain(g, r, i + k + 1, n)
  {
    var x := 2 * r + 1;
    assert x % 2 == 1 && x / 2 == r;
    ChainZeros(f, x, i, k, n + 1);
    assert Chain(f, x, i + k, n + 1) == Chain(Step(f, 1, i + k), r, i + k + 1, n);
  }

  lemma LastSecond1()
    ensures Chain(18446744073709551616, 31556951, 0, 25) == Chain(18446734754526109705, 986154, 5, 20)
  {
    ChainStep(18446744073709551616, 15778475, 0, 0, 24, 18446743668527564940, 18446743668527564940);
    ChainStep(18446743668527564940, 7889237, 1, 0, 23, 18446743263345587163, 18446742858163618286);
    ChainStep(18446742858163618286, 3944618, 2, 0, 22, 18446742452981658309, 18446741237435831776);
    ChainStep(18446741237435831776, 986154, 3, 1, 20, 18446737590798832767, 18446734754526109705);
  }

  lemma LastSecond2()
    ensures Chain(18446734754526109705, 986154, 5, 20) == Chain(18446190198243083328, 15408, 11, 14)
  {
    ChainStep(18446734754526109705, 246538, 5, 1, 18, 18446718142080346313, 18446708822910004904);
    ChainStep(18446708822910004904, 61634, 7, 1, 16, 18446640347411451525, 18446605096810120548);
    ChainStep(18446605096810120548, 15408, 9, 1, 14, 18446329172016664620, 18446190198243083328);
  }

  lemma LastSecond3()
    ensures Chain(18446190198243083328, 15408, 11, 14) == Chain(17577765036882105957, 7, 22, 3)
  {
    ChainStep(18446190198243083328, 481, 11, 4, 9, 18433471847125226169, 18432918370165977425);
    ChainStep(18432918370165977425, 240, 16, 0, 8, 18420209169759874097, 18406403353938171014);
    ChainStep(18406403353938171014, 7, 17, 4, 3, 17616289656815978922, 17577765036882105957);
  }

  lemma LastSecond4()
    ensures Chain(17577765036882105957, 7, 22, 3) == Chain(9223372239424913728, 0, 25, 0)
  {
    ChainStep(17577765036882105957, 3, 22, 0, 2, 16823221487369777986, 16030722456320470357);
    ChainStep(16030722456320470357, 1, 23, 0, 1, 15342587292489394070, 13333125762735585883);
    ChainStep(13333125762735585883, 0, 24, 0, 0, 12760787697116905635, 9223372239424913728);
  }

  /** The last second of a year leaves at least half, with room for every truncation. */
  lemma LastSecond(r: nat)
    requires r == 31_556_951
    ensures BitFactor(r) > HALF + 24 && WindowedFactor(r) > HALF
  {
    LastSecond1();
    LastSecond2();
    LastSecond3();
    LastSecond4();
    FactorsNear(r);
  }

  lemma RoundWhole(s: nat)
    ensures RoundHalfUp(s, ONE) == s
  {
    DivUnique(s * ONE + HALF, ONE, s, HALF);
  }

  lemma RoundHalf(s: nat, s': nat, f: nat)
    requires 2 * s' <= s && f >= HALF
    ensures s' <= RoundHalfUp(s, f)
  {
    MulMonotone(2 * s', s, HALF);
    MulMonotone(HALF, f, s);
    assert (2 * s') * HALF == s' * ONE;
    DivMonotone(s' * ONE, s * f + HALF, ONE);
    DivUnique(s' * ONE, ONE, s', 0);
  }

  lemma ShiftedHalves(value: nat, times: nat)
    ensures 2 * Shifted(value, times + 1) <= Shifted(value, times)
  {
    if times + 1 < SHIFT_LIMIT { DivPow2Succ(value, times); }
  }

  /** How quotient and remainder by the year move on by one second. */
  ghost predicate SecondLater(times: nat, rem: nat, times': nat, rem': nat)
  {
    if rem + 1 < 31_556_952 then times' == times && rem' == rem + 1
    else rem == 31_556_951 && times' == times + 1 && rem' == 0
  }

  lemma NextSecond(d: nat)
    ensures SecondLater(d / 31_556_952, d % 31_556_952, (d + 1) / 31_556_952, (d + 1) % 31_556_952)
  {}

  lemma SecondInYear(s: nat, rem: nat)
    requires rem + 1 < 31_556_952
    ensures RoundHalfUp(s, BitFactor(rem + 1)) <= RoundHalfUp(s, BitFactor(rem))
    ensures RoundHalfUp(s, WindowedFactor(rem + 1)) <= RoundHalfUp(s, WindowedFactor(rem))
  {
    FactorsDecrease(rem);
    RoundMonotone(s, BitFactor(rem + 1), s, BitFactor(rem));
    RoundMonotone(s, WindowedFactor(rem + 1), s, WindowedFactor(rem));
  }

  lemma NewYear(s: nat, s': nat, rem: nat, first: nat)
    requires rem == 31_556_951 && first == 0 && 2 * s' <= s
    ensures RoundHalfUp(s', BitFactor(first)) <= RoundHalfUp(s, BitFactor(rem))
    ensures RoundHalfUp(s', WindowedFactor(first)) <= RoundHalfUp(s, WindowedFactor(rem))
  {
    LastSecond(rem);
    ZeroRemainder(first);
    RoundWhole(s');
    RoundHalf(s, s', BitFactor(rem));
    RoundHalf(s, s', WindowedFactor(rem));
  }

  lemma LaterIsLess(value: nat, times: nat, rem: nat, times': nat, rem': nat)
    requires SecondLater(times, rem, times', rem')
    ensures RoundHalfUp(Shifted(value, times'), BitFactor(rem')) <= RoundHalfUp(Shifted(value, times), BitFactor(rem))
    ensures RoundHalfUp(Shifted(value, times'), WindowedFactor(rem')) <= RoundHalfUp(Shifted(value, times), WindowedFactor(rem))
  {
    if rem + 1 < 31_556_952 {
      SecondInYear(Shifted(value, times), rem);
    } else {
      ShiftedHalves(value, times);
      NewYear(Shifted(value, times), Shifted(value, times'), rem, rem');
    }
  }

  /** One more second never raises the value: within a year, and from a year to the next. */
  lemma DecayNextSecond(value: nat, duration: nat)
    ensures Decay(value, duration + 1) <= Decay(value, duration)
    ensures DecayWindowed(value, duration + 1) <= DecayWindowed(value, duration)
  {
    NextSecond(duration);
    LaterIsLess(value, duration / 31_556_952, duration % 31_556_952, (duration + 1) / 31_556_952, (duration + 1) % 31_556_952);
  }

  lemma ZeroRemainder(r: nat)
    requires r == 0
    ensures BitFactor(r) == ONE && WindowedFactor(r) == ONE
  {
    forall k: nat ensures Digit(r, k) == 0 { ZeroDigit(k); }
    EmptyWindows(ONE, r, 0, WINDOWS);
  }

  lemma {:induction false} ZeroDigit(k: nat)
    ensures Digit(0, k) == 0
  {
    if k > 0 { ZeroDigit(k - 1); }
  }

  /** Waiting never pays, whatever the two durations. */
  lemma {:induction false} DecayMonotone(value: nat, d: nat, e: nat)
    requires d <= e
    ensures Decay(value, e) <= Decay(value, d) && DecayWindowed(value, e) <= DecayWindowed(value, d)
    decreases e
  {
    if d < e {
      DecayNextSecond(value, e - 1);
      DecayMonotone(value, d, e - 1);
    }
  }

  /** A larger note stays at least as large. */
  lemma DecayValueMonotone(v: nat, w: nat, duration: nat)
    requires v <= w
    ensures Decay(v, duration) <= Decay(w, duration) && DecayWindowed(v, duration) <= DecayWindowed(w, duration)
  {
    var times, rem := duration / 31_556_952, duration % 31_556_952;
    if times < SHIFT_LIMIT { DivMonotone(v, w, Pow2(times)); }
    RoundMonotone(Shifted(v, times), BitFactor(rem), Shifted(w, times), BitFactor(rem));
    RoundMonotone(Shifted(v, times), WindowedFactor(rem), Shifted(w, times), WindowedFactor(rem));
  }

  // ---------------------------------------------------------------- the two chains compared

  lemma {:induction false} AllOnesLarge(r: nat, n: nat)
    requires Ones(r, n) == n
    ensures r + 1 >= Pow2(n)
    decreases n
  {
    if n > 0 { AllOnesLarge(r / 2, n - 1); }
  }

  /** No remainder of a year has all 25 bits set. */
  lemma RemainderOnes(rem: nat)
    requires rem < 31_556_952
    ensures Ones(rem, REM_BITS) <= 24
  {
    if Ones(rem, REM_BITS) == REM_BITS {
      AllOnesLarge(rem, REM_BITS);
      Pow2Values();
    }
  }

  /** How far the two factors of a remainder with `m` set bits can be apart. */
  function FactorSpread(m: nat): nat { if m <= 2 then 0 else m - 2 }

  lemma FactorsClose(rem: nat)
    ensures var k := FactorSpread(Ones(rem, REM_BITS));
      BitFactor(rem) <= WindowedFactor(rem) + k && WindowedFactor(rem) <= BitFactor(rem) + k
  {
    FactorsNear(rem);
  }

  lemma RoundClose(s: nat, f: nat, g: nat, k: nat, b: nat)
    requires g <= f + k && s * k < b * 0x1_0000_0000_0000_0000
    ensures RoundHalfUp(s, g) <= RoundHalfUp(s, f) + b
  {
    MulMonotone(g, f + k, s);
    MulDistributes(f, k, s);
    var x := s * f + HALF;
    DivMonotone(s * g + HALF, x + s * k, ONE);
    assert x + s * k < (x / 0x1_0000_0000_0000_0000 + b + 1) * 0x1_0000_0000_0000_0000;
  }

  /** The windowed chain against unit.c: at most 11 units apart, at most one below `2^59`. */
  lemma DecayDifference(value: nat, duration: nat)
    requires value < VALUE_LIMIT
    ensures var b := if value < 0x800_0000_0000_0000 then 1 else 11;
      Decay(value, duration) <= DecayWindowed(value, duration) + b && DecayWindowed(value, duration) <= Decay(value, duration) + b
  {
    var times, rem := duration / 31_556_952, duration % 31_556_952;
    var s, b := Shifted(value, times), if value < 0x800_0000_0000_0000 then 1 else 11;
    RemainderOnes(rem);
    FactorsClose(rem);
    ShiftedBound(value, times);
    RoundClose(s, BitFactor(rem), WindowedFactor(rem), 22, b);
    RoundClose(s, WindowedFactor(rem), BitFactor(rem), 22, b);
  }

  /** With at most two set bits both chains truncate the same single product. */
  lemma AgreeOnTwoBits(value: nat, duration: nat)
    requires Ones(duration % 31_556_952, REM_BITS) <= 2
    ensures Decay(value, duration) == DecayWindowed(value, duration)
  {
    FactorsClose(duration % 31_556_952);
  }

  lemma ChainWindow(f: nat, r: nat, i: nat, n: nat)
    requires 0 < n && 5 * i + 5 * n <= REM_BITS
    ensures Chain(f, r, 5 * i, 5 * n) == Chain(Chain(f, r % 32, 5 * i, 5), r / 32, 5 * (i + 1), 5 * (n - 1))
  {
    Pow2Five();
    ChainLowBits(f, r, 5 * i, 5);
    ChainSplit(f, r, 5 * i, 5, 5 * (n - 1));
    ShrWindow(r);
  }

  /** Windows without set bits leave either chain as it is. */
  lemma {:induction false} EmptyWindows(f: nat, r: nat, i: nat, n: nat)
    requires i + n <= WINDOWS && forall k | 0 <= k < n :: Digit(r, k) == 0
    ensures WindowChain(f, r, i, n) == f && Chain(f, r, 5 * i, 5 * n) == f
    decreases n
  {
    if n > 0 {
      assert Digit(r, 0) == 0;
      ChainWindow(f, r, i, n);
      ChainZero(ONE, 5 * i, 5);
      ChainZero(f, 5 * i, 5);
      assert MulQ64(f, ONE) == f;
      forall k | 0 <= k < n - 1 ensures Digit(r / 32, k) == 0 { assert Digit(r, k + 1) == 0; }
      EmptyWindows(f, r / 32, i + 1, n - 1);
    }
  }

  lemma {:induction false} OneWindow(r: nat, j: int, i: nat, n: nat)
    requires i + n <= WINDOWS && forall k | 0 <= k < n && k != j :: Digit(r, k) == 0
    ensures WindowChain(ONE, r, i, n) == Chain(ONE, r, 5 * i, 5 * n)
    decreases n
  {
    if n > 0 {
      forall k | 0 <= k < n - 1 && k != j - 1 ensures Digit(r / 32, k) == 0 { assert Digit(r, k + 1) == 0; }
      ChainWindow(ONE, r, i, n);
      var g := WindowFactor(i, r % 32);
      assert MulQ64(ONE, g) == g;
      if j == 0 {
        EmptyWindows(g, r / 32, i + 1, n - 1);
      } else {
        assert Digit(r, 0) == 0;
        ChainZero(ONE, 5 * i, 5);
        OneWindow(r / 32, j - 1, i + 1, n - 1);
      }
    }
  }

  /** When every set bit of the remainder lies in one window, the variants are bit-identical. */
  lemma AgreeOnOneWindow(value: nat, duration: nat, j: nat)
    requires forall k | 0 <= k < WINDOWS && k != j :: Digit(duration % 31_556_952, k) == 0
    ensures Decay(value, duration) == DecayWindowed(value, duration)
  {
    OneWindow(duration % 31_556_952, j, 0, WINDOWS);
  }

  /** The factors lie between one half and one, strictly from the first second on. */
  lemma {:induction false} FactorsAboveHalf(r: nat)
    requires r < 31_556_952
    ensures BitFactor(r) > HALF && WindowedFactor(r) > HALF
    decreases 31_556_952 - r
  {
    if r == 31_556_951 {
      LastSecond(r);
    } else {
      FactorsDecrease(r);
      FactorsAboveHalf(r + 1);
    }
  }

  lemma {:induction false} FactorsBelowOne(r: nat)
    requires 0 < r < 31_556_952
    ensures BitFactor(r) < ONE && WindowedFactor(r) < ONE
    decreases r
  {
    FactorsDecrease(r - 1);
    if r == 1 { ZeroRemainder(r - 1); } else { FactorsBelowOne(r - 1); }
  }

  /** The larger factor's product is `v` or more above: enough to reach the next multiple of `2^64`. */
  lemma RoundsUp(v: nat, g: nat, f: nat, q: nat, r: nat)
    requires g < f && v * g + HALF == q * 0x1_0000_0000_0000_0000 + r
    requires r < 0x1_0000_0000_0000_0000 <= r + v
    ensures RoundHalfUp(v, g) == q < RoundHalfUp(v, f)
  {
    DivUnique(v * g + HALF, ONE, q, r);
    MulMonotone(g + 1, f, v);
    MulDistributes(g, 1, v);
    DivMonotone((q + 1) * 0x1_0000_0000_0000_0000, v * f + HALF, ONE);
    DivUnique((q + 1) * 0x1_0000_0000_0000_0000, ONE, q + 1, 0);
  }

  /** An even factor: the largest value has a remainder just large enough. */
  lemma EvenPart(g: nat, f: nat, h: nat) returns (v: nat)
    requires g == 2 * h && HALF < g < f < ONE
    ensures v < VALUE_LIMIT && RoundHalfUp(v, g) < RoundHalfUp(v, f)
  {
    v := 0x7fff_ffff_ffff_ffff;
    RoundsUp(v, g, f, h - 1, 0x1_8000_0000_0000_0000 - g);
  }

  lemma SumBelowProduct(a: nat, t: nat)
    requires 0 < a && 1 < t
    ensures a + t <= a * t + 1 && (1 < a ==> a + t <= a * t)
  {
    MulMonotone(2, t, a - 1);
    MulDistributes(a - 1, 1, t);
  }

  /** How many steps of `s` below the top the remainder passes the gap. */
  lemma Steps(s: nat) returns (k: nat)
    requires 3 <= s < 0x8000_0000_0000_0000
    ensures 0 < k < 0x8000_0000_0000_0000 <= k * (s - 1) && k * s < 0x1_0000_0000_0000_0000
  {
    var t := s - 1;
    var a := 0x7fff_ffff_ffff_ffff / t;
    k := a + 1;
    assert a * t <= 0x7fff_ffff_ffff_ffff < k * t;
    assert k * t == a * t + t && k * s == k * t + k;
    SumBelowProduct(a, t);
  }

  /** An odd factor: `k` below the largest value. */
  lemma OddPart(g: nat, f: nat, h: nat) returns (v: nat)
    requires g == 2 * h + 1 && HALF < g < f < ONE
    ensures v < VALUE_LIMIT && RoundHalfUp(v, g) < RoundHalfUp(v, f)
  {
    var s := 0x1_0000_0000_0000_0000 - g;
    var k := Steps(s);
    v := 0x8000_0000_0000_0000 - k;
    assert k * (s - 1) == k * s - k;
    assert v * g == 0x8000_0000_0000_0000 * g - k * g;
    assert k * g == k * 0x1_0000_0000_0000_0000 - k * s;
    RoundsUp(v, g, f, h + 1 - k, k * s);
  }

  /** Two factors above one half never round all values alike. */
  lemma RoundsApart(g: nat, f: nat) returns (v: nat)
    requires HALF < g < f < ONE
    ensures v < VALUE_LIMIT && RoundHalfUp(v, g) < RoundHalfUp(v, f)
  {
    if g % 2 == 0 { v := EvenPart(g, f, g / 2); } else { v := OddPart(g, f, g / 2); }
  }

  lemma WithinYear(value: nat, duration: nat)
    requires duration < 31_556_952
    ensures Decay(value, duration) == RoundHalfUp(value, BitFactor(duration))
    ensures DecayWindowed(value, duration) == RoundHalfUp(value, WindowedFactor(duration))
  {
    assert duration / 31_556_952 == 0;
  }

  /** Within a year the variants agree on every amount if and only if their factors are the same. */
  lemma AgreeWhenFactorsDo(duration: nat)
    requires duration < 31_556_952
    ensures (forall value: nat :: value < VALUE_LIMIT ==> Decay(value, duration) == DecayWindowed(value, duration))
      <==> BitFactor(duration) == WindowedFactor(duration)
  {
    var f, g := BitFactor(duration), WindowedFactor(duration);
    if f == g {
      forall value: nat ensures Decay(value, duration) == DecayWindowed(value, duration) { WithinYear(value, duration); }
    } else {
      if duration == 0 { ZeroRemainder(duration); }
      FactorsAboveHalf(duration);
      FactorsBelowOne(duration);
      var value: nat;
      if g < f { value := RoundsApart(g, f); } else { value := RoundsApart(f, g); }
      WithinYear(value, duration);
    }
  }

  /** `393218 = 2 + 2^17 + 2^18`, bit by bit. */
  lemma ThreeBits()
    ensures BitFactor(393_218) == 18288105290676555383
  {
    ChainStep(ONE, 98_304, 0, 1, 23, 18446743263345587163, 18446743263345587163);
    ChainStep(18446743263345587163, 1, 2, 15, 7, 18393712435208807257, 18393711627174518363);
    ChainStep(18393711627174518363, 0, 18, 0, 6, 18340833254760868098, 18288105290676555383);
    ChainZero(18288105290676555383, 19, 6);
  }

  /** The same seconds as window digits: 2 in window 0, `4 + 8` in window 3. */
  lemma TwoEntries()
    ensures WindowFactor(0, 2) == 18446743263345587163
    ensures WindowFactor(3, 12) == 18288106094071566313
  {
    ChainStep(ONE, 0, 0, 1, 3, 18446743263345587163, 18446743263345587163);
    ChainZero(18446743263345587163, 2, 3);
    ChainStep(ONE, 1, 15, 2, 2, 18393712435208807257, 18393712435208807257);
    ChainStep(18393712435208807257, 0, 18, 0, 1, 18340833254760868098, 18288106094071566313);
    ChainZero(18288106094071566313, 19, 1);
  }

  lemma WindowChainStep(f: nat, r: nat, j: nat, n: nat, t: nat, g: nat)
    requires 0 < n && j + n <= WINDOWS && WindowFactor(j, r % 32) == t && g == MulQ64(f, t)
    ensures WindowChain(f, r, j, n) == WindowChain(g, r / 32, j + 1, n - 1)
  {}

  lemma EmptyWindowStep(f: nat, r: nat, j: nat, n: nat)
    requires 0 < n && j + n <= WINDOWS && r % 32 == 0
    ensures WindowChain(f, r, j, n) == WindowChain(f, r / 32, j + 1, n - 1)
  {
    ChainZero(ONE, 5 * j, 5);
    assert MulQ64(f, ONE) == f;
  }

  lemma TwoDigits1()
    ensures WindowChain(ONE, 393_218, 0, 5) == WindowChain(18446743263345587163, 12, 3, 2)
  {
    TwoEntries();
    WindowChainStep(ONE, 393_218, 0, 5, 18446743263345587163, 18446743263345587163);
    EmptyWindowStep(18446743263345587163, 12_288, 1, 4);
    EmptyWindowStep(18446743263345587163, 384, 2, 3);
  }

  lemma TwoDigits2()
    ensures WindowChain(18446743263345587163, 12, 3, 2) == 18288105290676555382
  {
    TwoEntries();
    WindowChainStep(18446743263345587163, 12, 3, 2, 18288106094071566313, 18288105290676555382);
    EmptyWindowStep(18288105290676555382, 0, 4, 1);
  }

  lemma TwoDigits()
    ensures WindowedFactor(393_218) == 18288105290676555382
  {
    TwoDigits1();
    TwoDigits2();
  }

  /**
   The two variants are not identical below ten billion GDD (`10^14` units), only close:
   15221.1981 GDD after 393218 seconds come out one unit apart.
   */
  lemma DifferBelowTenBillion(value: nat, duration: nat)
    requires value == 152_211_981 && duration == 393_218
    ensures value < 100_000_000_000_000 && Decay(value, duration) == 150_902_985 && DecayWindowed(value, duration) == 150_902_984
  {
    ThreeBits();
    TwoDigits();
    WithinYear(value, duration);
    Rounded(value, 18288105290676555383, 150_902_985);
    Rounded(value, 18288105290676555382, 150_902_984);
  }

  lemma Rounded(s: nat, f: nat, q: nat)
    requires q * 0x1_0000_0000_0000_0000 <= s * f + 0x8000_0000_0000_0000 < (q + 1) * 0x1_0000_0000_0000_0000
    ensures RoundHalfUp(s, f) == q
  {}
}
