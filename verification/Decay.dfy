/**
 The decay of a Gradido value, as the builder and the circuit compute it.

 Whole years halve the value (a shift); the remaining seconds select factors from a table of
 25 powers, in Q64.64. The bit chain multiplies one factor per set bit and truncates each time;
 the windowed chain groups the bits five by five and truncates once per window.
 */
module NativeDecay {
  import opened Widths
  import opened Arithmetic

  const REM_BITS: nat := 25
  const SHIFT_LIMIT: nat := 63
  const WINDOW_BITS: nat := 5
  const WINDOWS: nat := 5
  const WINDOW_SIZE: nat := 32

  /** `1` in Q64.64. */
  const ONE: nat := 0x1_0000_0000_0000_0000
  const HALF: nat := 0x8000_0000_0000_0000
  const U128_LIMIT: nat := 0x1_0000_0000_0000_0000_0000_0000_0000_0000

  /** `2^64 * 2^(-2^i / year)`, the constants of unit.c. */
  function DecayPower(i: nat): (p: nat)
    requires i < REM_BITS
    ensures 0 < p < ONE
  {
    match i
    case 0 => 18446743668527564940
    case 1 => 18446743263345587163
    case 2 => 18446742452981658309
    case 3 => 18446740832253907398
    case 4 => 18446737590798832767
    case 5 => 18446731107890392267
    case 6 => 18446718142080346313
    case 7 => 18446692210487594564
    case 8 => 18446640347411451525
    case 9 => 18446536621696605848
    case 10 => 18446329172016664620
    case 11 => 18445914279655690837
    case 12 => 18445084522928643346
    case 13 => 18443425121448271984
    case 14 => 18440106766335414243
    case 15 => 18433471847125226169
    case 16 => 18420209169759874097
    case 17 => 18393712435208807257
    case 18 => 18340833254760868098
    case 19 => 18235530516106764452
    case 20 => 18026735334708307356
    case 21 => 17616289656815978922
    case 22 => 16823221487369777986
    case 23 => 15342587292489394070
    case _ => 12760787697116905635
  }

  // ---------------------------------------------------------------- the factor chains

  /** One Q64.64 product, rounded down. */
  function Scale(a: nat, b: nat): (r: nat)
    ensures b <= ONE ==> r <= a
    ensures a <= ONE ==> r <= b
  {
    ScaleBounds(a, b);
    a * b / 0x1_0000_0000_0000_0000
  }

  lemma ScaleBounds(a: nat, b: nat)
    ensures b <= ONE ==> a * b / 0x1_0000_0000_0000_0000 <= a
    ensures a <= ONE ==> a * b / 0x1_0000_0000_0000_0000 <= b
  {
    if b <= ONE { MulMonotone(b, ONE, a); DivMonotone(a * b, a * ONE, ONE); }
    if a <= ONE { MulMonotone(a, ONE, b); DivMonotone(a * b, ONE * b, ONE); }
  }

  /** What that product truncates. */
  function ScaleRem(a: nat, b: nat): nat { a * b % 0x1_0000_0000_0000_0000 }

  /** `mul_q64`: a factor of exactly `2^64` is passed through without a multiplication. */
  function MulQ64(a: nat, b: nat): (r: nat)
    ensures r == Scale(a, b)
  {
    if a == ONE then b else if b == ONE then a else Scale(a, b)
  }

  /** The remainder beside `MulQ64`: nothing is truncated when a factor is exactly `2^64`. */
  function RemQ64(a: nat, b: nat): (r: nat)
    ensures r == ScaleRem(a, b)
  {
    assert a == ONE ==> ScaleRem(a, b) == 0 by { if a == ONE { DivUnique(a * b, ONE, b, 0); } }
    assert b == ONE ==> ScaleRem(a, b) == 0 by { if b == ONE { DivUnique(a * b, ONE, a, 0); } }
    if a == ONE || b == ONE then 0 else ScaleRem(a, b)
  }

  /** Window digit `j` of `r`, `(r >> 5j) & 31`. */
  function Digit(r: nat, j: nat): (c: nat)
    ensures c < WINDOW_SIZE
  {
    if j == 0 then r % 32 else Digit(r / 32, j - 1)
  }

  lemma {:induction false} DigitIsShift(r: nat, j: nat)
    ensures Digit(r, j) == r / Pow2(5 * j) % 32
  {
    if j > 0 {
      DigitIsShift(r / 32, j - 1);
      Pow2Five();
      DivPow2Add(r, WINDOW_BITS, 5 * (j - 1));
    }
  }

  /** One step of the bit chain: multiply only when the bit is set. */
  function Step(f: nat, bit: nat, i: nat): (r: nat)
    requires i < REM_BITS
    ensures r <= f
  {
    if bit == 1 then Scale(f, DecayPower(i)) else f
  }

  /** The factor after the low `n` bits of `r`, which stand for the powers from `i` on. */
  function Chain(f: nat, r: nat, i: nat, n: nat): nat
    requires i + n <= REM_BITS
    decreases n, r
  {
    if n == 0 then f else Chain(Step(f, r % 2, i), r / 2, i + 1, n - 1)
  }

  /** The factor of window digit `c` in window `j`: an entry of the window table. */
  function WindowFactor(j: nat, c: nat): nat
    requires j < WINDOWS
  {
    Chain(ONE, c, 5 * j, WINDOW_BITS)
  }

  /** The factor after `n` windows of `r`, starting with window `j`. */
  function WindowChain(f: nat, r: nat, j: nat, n: nat): nat
    requires j + n <= WINDOWS
    decreases n, r
  {
    if n == 0 then f
    else WindowChain(MulQ64(f, WindowFactor(j, r % 32)), r / 32, j + 1, n - 1)
  }

  /** Factor for `rem` seconds, one truncation per set bit, as unit.c. */
  function BitFactor(rem: nat): nat { Chain(ONE, rem, 0, REM_BITS) }

  /** Factor for `rem` seconds, one truncation per window on top of the table's own. */
  function WindowedFactor(rem: nat): nat { WindowChain(ONE, rem, 0, WINDOWS) }

  // ---------------------------------------------------------------- the decayed value

  /** `value >> times`, and 0 from 63 years on. */
  function Shifted(value: nat, times: nat): nat
  {
    if times >= SHIFT_LIMIT then 0
    else
      DivNonnegative(value, Pow2(times));
      value / Pow2(times)
  }

  function RoundHalfUp(s: nat, f: nat): nat { (s * f + 0x8000_0000_0000_0000) / 0x1_0000_0000_0000_0000 }

  /** `grdd_unit_calculate_decay` for a non-negative value and duration. */
  function Decay(value: nat, duration: nat): nat
  {
    RoundHalfUp(Shifted(value, duration / 31_556_952), BitFactor(duration % 31_556_952))
  }

  /** The windowed variant, which the production circuit proves. */
  function DecayWindowed(value: nat, duration: nat): nat
  {
    RoundHalfUp(Shifted(value, duration / 31_556_952), WindowedFactor(duration % 31_556_952))
  }

  // ---------------------------------------------------------------- chains bit by bit

  lemma {:induction false} ChainBound(f: nat, r: nat, i: nat, n: nat)
    requires i + n <= REM_BITS
    ensures Chain(f, r, i, n) <= f
    decreases n, r
  {
    if n > 0 { ChainBound(Step(f, r % 2, i), r / 2, i + 1, n - 1); }
  }

  lemma {:induction false} WindowChainBound(f: nat, r: nat, j: nat, n: nat)
    requires j + n <= WINDOWS
    ensures WindowChain(f, r, j, n) <= f
    decreases n, r
  {
    if n > 0 {
      ChainBound(ONE, r % 32, 5 * j, WINDOW_BITS);
      WindowChainBound(MulQ64(f, WindowFactor(j, r % 32)), r / 32, j + 1, n - 1);
    }
  }

  /** A chain can also be extended at its high end. */
  lemma {:induction false} ChainSnoc(f: nat, r: nat, i: nat, n: nat)
    requires i + n + 1 <= REM_BITS
    ensures Chain(f, r, i, n + 1) == Step(Chain(f, r, i, n), Bit(r, n), i + n)
    decreases n, r
  {
    var g := Step(f, r % 2, i);
    if n > 0 {
      ChainSnoc(g, r / 2, i + 1, n - 1);
    } else {
      assert Chain(g, r / 2, i + 1, 0) == g;
    }
  }

  lemma {:induction false} WindowChainSnoc(f: nat, r: nat, j: nat, n: nat)
    requires j + n + 1 <= WINDOWS
    ensures WindowChain(f, r, j, n + 1)
         == MulQ64(WindowChain(f, r, j, n), WindowFactor(j + n, Digit(r, n)))
    decreases n, r
  {
    var g := MulQ64(f, WindowFactor(j, r % 32));
    assert WindowChain(f, r, j, n + 1) == WindowChain(g, r / 32, j + 1, n);
    if n > 0 {
      assert WindowChain(f, r, j, n) == WindowChain(g, r / 32, j + 1, n - 1);
      WindowChainSnoc(g, r / 32, j + 1, n - 1);
      assert Digit(r, n) == Digit(r / 32, n - 1);
    }
  }

  /** Only the low `n` bits matter for `n` steps. */
  lemma {:induction false} ChainLowBits(f: nat, r: nat, i: nat, n: nat)
    requires i + n <= REM_BITS
    ensures Chain(f, r % Pow2(n), i, n) == Chain(f, r, i, n)
    decreases n, r
  {
    if n > 0 {
      LowBits(r, n - 1);
      ChainLowBits(Step(f, r % 2, i), r / 2, i + 1, n - 1);
    }
  }

  // ---------------------------------------------------------------- traces

  /** `value = q * 2^shift + r`, with `shift = 0` and result 0 once `k >= limit`. */
  datatype ShiftTrace = ShiftTrace(k: nat, big: bool, shift: nat, pow: nat, q: nat, r: nat, shifted: nat)

  function ShiftTraceOf(value: nat, k: nat, limit: nat): (t: ShiftTrace)
    ensures value == t.q * t.pow + t.r && t.r < t.pow
    ensures t.shifted == if k >= limit then 0 else value / Pow2(k)
  {
    var big := k >= limit;
    var shift := if big then 0 else k;
    var pow := Pow2(shift);
    var q := value / pow;
    var r := value - q * pow;
    ShiftTrace(k, big, shift, pow, q, r, if big then 0 else q)
  }

  /** Every intermediate value of the bit chain, as the circuit needs it. */
  datatype DecayTrace = DecayTrace(
    times: nat, rem: nat, shift: ShiftTrace, bits: seq<bool>,
    f: seq<nat>, fNext: seq<nat>, fRem: seq<nat>, result: nat, roundRem: nat)

  /** Every intermediate value of the windowed chain. */
  datatype WindowedTrace = WindowedTrace(
    times: nat, rem: nat, shift: ShiftTrace, digits: seq<nat>, factors: seq<nat>,
    f: seq<nat>, fRem: seq<nat>, result: nat, roundRem: nat)

  ghost predicate DecayTraceOk(t: DecayTrace, value: nat, duration: nat)
  {
    && t.times == duration / 31_556_952
    && t.rem == duration % 31_556_952
    && t.shift == ShiftTraceOf(value, t.times, SHIFT_LIMIT)
    && |t.bits| == REM_BITS && |t.fNext| == REM_BITS && |t.fRem| == REM_BITS && |t.f| == REM_BITS + 1
    && (forall i | 0 <= i < REM_BITS :: t.bits[i] == (Bit(t.rem, i) == 1))
    && (forall i | 0 <= i <= REM_BITS :: t.f[i] == Chain(ONE, t.rem, 0, i))
    && (forall i | 0 <= i < REM_BITS :: t.fNext[i] == Scale(t.f[i], DecayPower(i)))
    && (forall i | 0 <= i < REM_BITS :: t.fRem[i] == ScaleRem(t.f[i], DecayPower(i)))
    && t.result == Decay(value, duration)
    && t.roundRem == (t.shift.shifted * BitFactor(t.rem) + HALF) % 0x1_0000_0000_0000_0000
  }

  ghost predicate WindowedTraceOk(t: WindowedTrace, value: nat, duration: nat)
  {
    && t.times == duration / 31_556_952
    && t.rem == duration % 31_556_952
    && t.shift == ShiftTraceOf(value, t.times, SHIFT_LIMIT)
    && |t.digits| == WINDOWS && |t.factors| == WINDOWS && |t.fRem| == WINDOWS && |t.f| == WINDOWS + 1
    && (forall j | 0 <= j < WINDOWS :: t.digits[j] == Digit(t.rem, j))
    && (forall j | 0 <= j < WINDOWS :: t.factors[j] == WindowFactor(j, t.digits[j]))
    && (forall j | 0 <= j <= WINDOWS :: t.f[j] == WindowChain(ONE, t.rem, 0, j))
    && (forall j | 0 <= j < WINDOWS :: t.fRem[j] == ScaleRem(t.f[j], t.factors[j]))
    && t.result == DecayWindowed(value, duration)
    && t.roundRem == (t.shift.shifted * WindowedFactor(t.rem) + HALF) % 0x1_0000_0000_0000_0000
  }

  /** No product of a chain step leaves 128 bits. */
  lemma StepFitsU128(f: nat, p: nat)
    requires f <= ONE && p < ONE
    ensures f * p < U128_LIMIT && f * p / 0x1_0000_0000_0000_0000 < ONE
  {
    MulMonotone(f, ONE, p);
    ScaleBounds(f, p);
  }

  /** The rounding sum stays in 128 bits and its quotient in 63: decay never enlarges a value. */
  lemma RoundFitsU128(s: nat, f: nat)
    requires s < VALUE_LIMIT && f <= ONE
    ensures s * f + HALF < U128_LIMIT && RoundHalfUp(s, f) <= s
  {
    MulMonotone(f, ONE, s);
    DivMonotone(s * f + HALF, s * ONE + HALF, ONE);
    DivUnique(s * ONE + HALF, ONE, s, HALF);
  }

  lemma ShiftedBound(value: nat, times: nat)
    ensures Shifted(value, times) <= value
  {
    if times < SHIFT_LIMIT { DivByPositive(value, Pow2(times)); }
  }

  lemma DivByPositive(x: nat, d: nat)
    requires d > 0
    ensures x / d <= x
  {
    MulMonotone(1, d, x / d);
  }

  /** A spent note is never worth more than its nominal value. */
  lemma DecayNeverGains(value: nat, duration: nat)
    requires value < VALUE_LIMIT
    ensures Decay(value, duration) <= value && DecayWindowed(value, duration) <= value
  {
    var s := Shifted(value, duration / 31_556_952);
    var rem := duration % 31_556_952;
    ShiftedBound(value, duration / 31_556_952);
    ChainBound(ONE, rem, 0, REM_BITS);
    WindowChainBound(ONE, rem, 0, WINDOWS);
    RoundFitsU128(s, BitFactor(rem));
    RoundFitsU128(s, WindowedFactor(rem));
  }

  /** `decay_trace`: the bit chain, filled array by array. */
  method ComputeDecayTrace(value: nat, duration: nat) returns (t: DecayTrace)
    requires value < VALUE_LIMIT
    ensures DecayTraceOk(t, value, duration)
  {
    var rem := duration % 31_556_952;
    var bits, f, fNext, fRem := ComputeBitChain(rem);
    var shift := ShiftTraceOf(value, duration / 31_556_952, SHIFT_LIMIT);
    var x := shift.shifted * f[REM_BITS] + HALF;
    t := DecayTrace(duration / 31_556_952, rem, shift, bits, f, fNext, fRem, x / 0x1_0000_0000_0000_0000, x % 0x1_0000_0000_0000_0000);
  }

  method ComputeBitChain(rem: nat) returns (bits: seq<bool>, f: seq<nat>, fNext: seq<nat>, fRem: seq<nat>)
    ensures |bits| == REM_BITS && |fNext| == REM_BITS && |fRem| == REM_BITS && |f| == REM_BITS + 1
    ensures forall k | 0 <= k <= REM_BITS :: f[k] == Chain(ONE, rem, 0, k)
    ensures forall k | 0 <= k < REM_BITS :: bits[k] == (Bit(rem, k) == 1)
    ensures forall k | 0 <= k < REM_BITS :: fNext[k] == Scale(f[k], DecayPower(k))
    ensures forall k | 0 <= k < REM_BITS :: fRem[k] == ScaleRem(f[k], DecayPower(k))
  {
    bits, f := seq(REM_BITS, _ => false), seq(REM_BITS + 1, _ => 0);
    fNext, fRem := seq(REM_BITS, _ => 0), seq(REM_BITS, _ => 0);
    f := f[0 := ONE];
    for i := 0 to REM_BITS
      invariant |bits| == REM_BITS && |fNext| == REM_BITS && |fRem| == REM_BITS && |f| == REM_BITS + 1
      invariant forall k | 0 <= k <= i :: f[k] == Chain(ONE, rem, 0, k)
      invariant forall k | 0 <= k < i :: bits[k] == (Bit(rem, k) == 1)
      invariant forall k | 0 <= k < i :: fNext[k] == Scale(f[k], DecayPower(k))
      invariant forall k | 0 <= k < i :: fRem[k] == ScaleRem(f[k], DecayPower(k))
    {
      ChainSnoc(ONE, rem, 0, i);
      bits := bits[i := Bit(rem, i) == 1];
      fNext := fNext[i := Scale(f[i], DecayPower(i))];
      fRem := fRem[i := ScaleRem(f[i], DecayPower(i))];
      f := f[i + 1 := if bits[i] then fNext[i] else f[i]];
    }
  }

  /** `window_table`: every factor of every window, built bit by bit. */
  method ComputeWindowTable() returns (table: seq<seq<nat>>)
    ensures |table| == WINDOWS && forall j | 0 <= j < WINDOWS :: WindowEntries(j, table[j])
  {
    table := [];
    for j := 0 to WINDOWS
      invariant |table| == j && forall k | 0 <= k < j :: WindowEntries(k, table[k])
    {
      var row := [];
      for c := 0 to WINDOW_SIZE
        invariant |row| == c && forall d | 0 <= d < c :: row[d] == WindowFactor(j, d)
      {
        var entry := ComputeWindowFactor(j, c);
        row := row + [entry];
      }
      table := table + [row];
    }
  }

  /** A row of the window table: the factor of every digit of window `j`. */
  ghost predicate WindowEntries(j: nat, row: seq<nat>)
    requires j < WINDOWS
  {
    |row| == WINDOW_SIZE && forall c | 0 <= c < WINDOW_SIZE :: row[c] == WindowFactor(j, c)
  }

  method ComputeWindowFactor(j: nat, c: nat) returns (f: nat)
    requires j < WINDOWS
    ensures f == WindowFactor(j, c)
  {
    f := ONE;
    for bit := 0 to WINDOW_BITS
      invariant f == Chain(ONE, c, 5 * j, bit)
    {
      ChainSnoc(ONE, c, 5 * j, bit);
      if Bit(c, bit) == 1 {
        f := MulQ64(f, DecayPower(bit + j * 5));
      }
    }
  }

  /** `windowed_trace`: the windowed chain, five steps over the table. */
  method ComputeWindowedTrace(value: nat, duration: nat) returns (t: WindowedTrace)
    requires value < VALUE_LIMIT
    ensures WindowedTraceOk(t, value, duration)
  {
    var rem := duration % 31_556_952;
    var digits, factors, f, fRem := ComputeWindowedChain(rem);
    var shift := ShiftTraceOf(value, duration / 31_556_952, SHIFT_LIMIT);
    var x := shift.shifted * f[WINDOWS] + HALF;
    t := WindowedTrace(duration / 31_556_952, rem, shift, digits, factors, f, fRem, x / 0x1_0000_0000_0000_0000, x % 0x1_0000_0000_0000_0000);
  }

  method ComputeWindowedChain(rem: nat) returns (digits: seq<nat>, factors: seq<nat>, f: seq<nat>, fRem: seq<nat>)
    ensures |digits| == WINDOWS && |factors| == WINDOWS && |fRem| == WINDOWS && |f| == WINDOWS + 1
    ensures forall k | 0 <= k <= WINDOWS :: f[k] == WindowChain(ONE, rem, 0, k)
    ensures forall k | 0 <= k < WINDOWS :: digits[k] == Digit(rem, k)
    ensures forall k | 0 <= k < WINDOWS :: factors[k] == WindowFactor(k, Digit(rem, k))
    ensures forall k | 0 <= k < WINDOWS :: fRem[k] == ScaleRem(f[k], factors[k])
  {
    var table := ComputeWindowTable();
    digits, factors := seq(WINDOWS, _ => 0), seq(WINDOWS, _ => 0);
    f, fRem := seq(WINDOWS + 1, _ => 0), seq(WINDOWS, _ => 0);
    f := f[0 := ONE];
    for j := 0 to WINDOWS
      invariant |digits| == WINDOWS && |factors| == WINDOWS && |fRem| == WINDOWS && |f| == WINDOWS + 1
      invariant forall k | 0 <= k <= j :: f[k] == WindowChain(ONE, rem, 0, k)
      invariant forall k | 0 <= k < j :: digits[k] == Digit(rem, k)
      invariant forall k | 0 <= k < j :: factors[k] == WindowFactor(k, Digit(rem, k))
      invariant forall k | 0 <= k < j :: fRem[k] == ScaleRem(f[k], factors[k])
    {
      WindowChainSnoc(ONE, rem, 0, j);
      digits := digits[j := Digit(rem, j)];
      factors := factors[j := table[j][digits[j]]];
      f := f[j + 1 := MulQ64(f[j], factors[j])];
      fRem := fRem[j := RemQ64(f[j], factors[j])];
    }
  }
}
