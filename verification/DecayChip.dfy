/**
 The decay chip: polynomial constraints over the field, a lookup table and range checks that
 force `decayed` to be the integer decay of the very cells the note commitment binds.
 */
module DecayChip {
  import opened Widths
  import opened Arithmetic
  import opened NativeDecay
  import opened Field
  import opened RangeCheck

  const RANGE_WORDS: nat := 7
  const EXACT_REM_BITS: nat := 64
  const POW_TABLE_MAX: nat := 127
  const SHIFT_TAG: nat := 32
  const RANGE_LIMIT: nat := 0x40_0000_0000_0000_0000

  // ---------------------------------------------------------------- table and range checks

  /** The rows of the chip's one lookup table: the neutral row, `(s, 2^s)`, and the window factors. */
  predicate TableRow(windowed: bool, tag: nat, x: nat, y: nat)
  {
    || (tag == 0 && x == 0 && y == ONE)
    || (tag == SHIFT_TAG && x <= POW_TABLE_MAX && y == Pow2(x))
    || (windowed && tag < WINDOWS && x < WINDOW_SIZE && y == WindowFactor(tag, x))
  }

  /** `load`: assigns the table row by row. */
  method LoadTable(windowed: bool) returns (rows: seq<(nat, nat, nat)>)
    ensures forall tag: nat, x: nat, y: nat :: (tag, x, y) in rows <==> TableRow(windowed, tag, x, y)
  {
    rows := [(0, 0, ONE)];
    assert forall tag: nat, x: nat, y: nat :: (tag, x, y) in rows <==> (tag, x, y) == (0, 0, ONE);
    for shift := 0 to POW_TABLE_MAX + 1
      invariant forall tag: nat, x: nat, y: nat :: (tag, x, y) in rows <==>
        (tag == 0 && x == 0 && y == ONE) || (tag == SHIFT_TAG && x < shift && y == Pow2(x))
    {
      rows := rows + [(SHIFT_TAG, shift, Pow2(shift))];
    }
    if windowed {
      ghost var powers := rows;
      for j := 0 to WINDOWS
        invariant forall tag: nat, x: nat, y: nat :: (tag, x, y) in rows <==>
          (tag, x, y) in powers || (tag < j && x < WINDOW_SIZE && y == WindowFactor(tag, x))
      {
        for digit := 0 to WINDOW_SIZE
          invariant forall tag: nat, x: nat, y: nat :: (tag, x, y) in rows <==>
            (tag, x, y) in powers || (tag < j && x < WINDOW_SIZE && y == WindowFactor(tag, x))
            || (tag == j && x < digit && y == WindowFactor(tag, x))
        {
          rows := rows + [(j, digit, WindowFactor(j, digit))];
        }
      }
    }
  }

  /** `range_check`: seven whole words. */
  ghost predicate RangeChecked(x: nat) { StrictWords(x, RANGE_WORDS) }

  /** `remainder_check`: exactly 64 bits. */
  ghost predicate RemainderChecked(x: nat) { CheckBits(x, EXACT_REM_BITS) }

  lemma RangeCheckedExact(x: nat)
    requires x < P
    ensures RangeChecked(x) <==> x < RANGE_LIMIT
  {
    Pow2Values();
    StrictWordsExact(x, RANGE_WORDS);
  }

  lemma RemainderCheckedExact(x: nat)
    requires x < P
    ensures RemainderChecked(x) <==> x < ONE
  {
    Pow2Values();
    CheckBitsExact(x, EXACT_REM_BITS);
  }

  // ---------------------------------------------------------------- the gates

  /** "decay window step" */
  predicate WindowGate(f: int, fNext: int, r: int, digit: int, acc: int, factor: int, fRowNext: int, accNext: int)
  {
    && Zero(Times(f, factor) - fNext * 0x1_0000_0000_0000_0000 - r)
    && Zero(fRowNext - fNext)
    && Zero(acc - digit - accNext * 32)
  }

  /** "decay factor step" */
  predicate BitGate(f: int, fNext: int, r: int, bit: int, acc: int, fRowNext: int, accNext: int, p: int)
  {
    && Zero(Times(f, p) - fNext * 0x1_0000_0000_0000_0000 - r)
    && Zero(Times(bit, 1 - bit))
    && Zero(fRowNext - Times(bit, fNext) - Times(1 - bit, f))
    && Zero(acc - bit - accNext * 2)
  }

  /** "duration" */
  predicate DurationGate(now: int, tNote: int, times: int, rem: int, bound: int)
  {
    && Zero(now - tNote - times * 31_556_952 - rem)
    && Zero(bound - 31_556_951 + rem)
  }

  /** "year shift" */
  predicate ShiftGate(v: int, q: int, r: int, sh: int, big: int, pow: int, times: int, w: int, shifted: int, d: int)
  {
    && Zero(v - Times(q, pow) - r)
    && Zero(Times(big, 1 - big))
    && Zero(Times(1 - big, times - sh))
    && Zero(Times(big, sh))
    && Zero(w - Times(big, times - 63))
    && Zero(shifted - Times(1 - big, q))
    && Zero(d - (pow - 1 - r))
  }

  /** "round half up" */
  predicate RoundGate(shifted: int, f: int, decayed: int, rem: int)
  {
    Zero(Times(shifted, f) + 0x8000_0000_0000_0000 - decayed * 0x1_0000_0000_0000_0000 - rem)
  }

  // ---------------------------------------------------------------- the constraints on the cells

  /** The rows of the factor chain. In the bit chain `digit` is the bit and `factor` is not used. */
  datatype ChainCells = ChainCells(
    f: seq<nat>, fNext: seq<nat>, fRem: seq<nat>, digit: seq<nat>, acc: seq<nat>, factor: seq<nat>)

  predicate InField(s: seq<nat>) { forall i | 0 <= i < |s| :: s[i] < P }

  predicate ChainShape(c: ChainCells, rows: nat)
  {
    && |c.f| == rows + 1 && |c.acc| == rows + 1
    && |c.fNext| == rows && |c.fRem| == rows && |c.digit| == rows && |c.factor| == rows
    && InField(c.f) && InField(c.acc) && InField(c.fNext) && InField(c.fRem) && InField(c.digit) && InField(c.factor)
  }

  /** Row `j` of the window chain: gate, lookup and range checks. */
  ghost predicate WindowRow(c: ChainCells, j: nat)
    requires ChainShape(c, WINDOWS) && j < WINDOWS
  {
    && WindowGate(c.f[j], c.fNext[j], c.fRem[j], c.digit[j], c.acc[j], c.factor[j], c.f[j + 1], c.acc[j + 1])
    && TableRow(true, j, c.digit[j], c.factor[j])
    && RangeChecked(c.fNext[j]) && RemainderChecked(c.fRem[j])
  }

  ghost predicate WindowChainHolds(c: ChainCells)
  {
    && ChainShape(c, WINDOWS) && c.f[0] == ONE && c.acc[WINDOWS] == 0
    && forall j | 0 <= j < WINDOWS :: WindowRow(c, j)
  }

  /** Row `i` of the bit chain: gate and range checks. */
  ghost predicate BitRow(c: ChainCells, i: nat)
    requires ChainShape(c, REM_BITS) && i < REM_BITS
  {
    && BitGate(c.f[i], c.fNext[i], c.fRem[i], c.digit[i], c.acc[i], c.f[i + 1], c.acc[i + 1], DecayPower(i))
    && RangeChecked(c.fNext[i]) && RemainderChecked(c.fRem[i])
  }

  ghost predicate BitChainHolds(c: ChainCells)
  {
    && ChainShape(c, REM_BITS) && c.f[0] == ONE && c.acc[REM_BITS] == 0
    && forall i | 0 <= i < REM_BITS :: BitRow(c, i)
  }

  /** The cells behind the chain: duration, year shift and rounding. */
  datatype TailCells = TailCells(
    times: nat, bound: nat, q: nat, r: nat, s: nat, big: nat, pow: nat, w: nat, shifted: nat, d: nat,
    decayed: nat, roundRem: nat)

  predicate TailInField(t: TailCells)
  {
    && t.times < P && t.bound < P && t.q < P && t.r < P && t.s < P && t.big < P && t.pow < P
    && t.w < P && t.shifted < P && t.d < P && t.decayed < P && t.roundRem < P
  }

  ghost predicate DurationHolds(now: nat, tNote: nat, rem: nat, t: TailCells)
  {
    && DurationGate(now, tNote, t.times, rem, t.bound)
    && RangeChecked(t.times) && RangeChecked(t.bound)
  }

  ghost predicate ShiftHolds(windowed: bool, value: nat, t: TailCells)
  {
    && ShiftGate(value, t.q, t.r, t.s, t.big, t.pow, t.times, t.w, t.shifted, t.d)
    && TableRow(windowed, SHIFT_TAG, t.s, t.pow)
    && RangeChecked(t.q) && RangeChecked(t.r) && RangeChecked(t.d) && RangeChecked(t.w)
  }

  ghost predicate RoundHolds(fLast: nat, t: TailCells)
  {
    RoundGate(t.shifted, fLast, t.decayed, t.roundRem) && RangeChecked(t.decayed) && RemainderChecked(t.roundRem)
  }

  /** Everything `decay` constrains: the caller's cells, the chain and the tail. */
  ghost predicate ChipHolds(windowed: bool, now: nat, value: nat, tNote: nat, decayed: nat, c: ChainCells, t: TailCells)
  {
    && (if windowed then WindowChainHolds(c) else BitChainHolds(c))
    && TailInField(t) && t.decayed == decayed
    && DurationHolds(now, tNote, c.acc[0], t)
    && ShiftHolds(windowed, value, t)
    && RoundHolds(c.f[|c.f| - 1], t)
  }

  // ---------------------------------------------------------------- soundness

  /** `x = q * 2^64 + r` in the field fixes the integer quotient: `r` has exactly 64 bits. */
  lemma QuotientUnique(x: nat, q: nat, r: nat)
    requires x < 0x4_0000_0000_0000_0000_0000_0000_0000_0000 && q < RANGE_LIMIT && r < ONE
    requires Zero(x - q * 0x1_0000_0000_0000_0000 - r)
    ensures q == x / 0x1_0000_0000_0000_0000 && r == x % 0x1_0000_0000_0000_0000
  {
    ZeroSmall(x - q * 0x1_0000_0000_0000_0000 - r);
  }

  lemma ProductBound(f: nat, p: nat)
    requires f <= ONE && p <= ONE
    ensures f * p < 0x4_0000_0000_0000_0000_0000_0000_0000_0000
  {
    MulMonotone(f, ONE, p);
    MulMonotone(p, ONE, ONE);
  }

  lemma ScaleUnique(f: nat, p: nat, q: nat, r: nat)
    requires f <= ONE && p <= ONE && q < RANGE_LIMIT && r < ONE
    requires Zero(Times(f, p) - q * 0x1_0000_0000_0000_0000 - r)
    ensures q == Scale(f, p)
  {
    TimesIsProduct(f, p);
    ProductBound(f, p);
    QuotientUnique(Times(f, p), q, r);
  }

  /** A window row of the table is the window's factor, whichever row the lookup hit. */
  lemma WindowLookup(j: nat, x: nat, y: nat)
    requires j < WINDOWS && TableRow(true, j, x, y)
    ensures x < WINDOW_SIZE && y == WindowFactor(j, x) && y <= ONE
  {
    ChainBound(ONE, x, 5 * j, WINDOW_BITS);
    if x == 0 && y == ONE { EmptyDigit(j, x); }
  }

  lemma EmptyDigit(j: nat, x: nat)
    requires j < WINDOWS && x == 0
    ensures WindowFactor(j, x) == ONE
  {
    var i := 5 * j;
    assert Chain(ONE, x, i, 5) == Chain(ONE, x, i + 1, 4) == Chain(ONE, x, i + 2, 3)
        == Chain(ONE, x, i + 3, 2) == Chain(ONE, x, i + 4, 1) == Chain(ONE, x, i + 5, 0);
  }

  lemma WindowGateSound(f: nat, fNext: nat, r: nat, digit: nat, acc: nat, factor: nat, fRowNext: nat, accNext: nat)
    requires f <= ONE && factor <= ONE && fNext < RANGE_LIMIT && r < ONE && digit < 32 && accNext < 0x200_0000
    requires acc < P && fRowNext < P
    requires WindowGate(f, fNext, r, digit, acc, factor, fRowNext, accNext)
    ensures acc == digit + 32 * accNext && fRowNext == Scale(f, factor)
  {
    ScaleUnique(f, factor, fNext, r);
    ZeroSmall(fRowNext as int - fNext);
    ZeroSmall(acc as int - digit - accNext * 32);
  }

  lemma WindowRowSound(c: ChainCells, j: nat)
    requires ChainShape(c, WINDOWS) && j < WINDOWS && WindowRow(c, j)
    requires c.f[j] <= ONE && c.acc[j + 1] < 0x200_0000
    ensures c.acc[j] == c.digit[j] + 32 * c.acc[j + 1] && c.digit[j] < 32
    ensures c.f[j + 1] == MulQ64(c.f[j], WindowFactor(j, c.digit[j]))
  {
    WindowLookup(j, c.digit[j], c.factor[j]);
    RangeCheckedExact(c.fNext[j]);
    RemainderCheckedExact(c.fRem[j]);
    WindowGateSound(c.f[j], c.fNext[j], c.fRem[j], c.digit[j], c.acc[j], c.factor[j], c.f[j + 1], c.acc[j + 1]);
    assert MulQ64(c.f[j], c.factor[j]) == Scale(c.f[j], c.factor[j]);
  }

  /** `32^n`, the range of what is left of `rem` before the last `n` windows. */
  function WindowCap(n: nat): (k: nat)
    requires n <= WINDOWS
    ensures 1 <= k <= 0x200_0000
  {
    match n case 0 => 1 case 1 => 32 case 2 => 1024 case 3 => 0x8000 case 4 => 0x10_0000 case _ => 0x200_0000
  }

  /** The accumulators hold the digits of a remainder below `2^25`. */
  lemma {:induction false} WindowAccumulators(c: ChainCells, j: nat)
    requires WindowChainHolds(c) && j <= WINDOWS
    ensures c.acc[j] < WindowCap(WINDOWS - j)
    decreases WINDOWS - j
  {
    if j < WINDOWS {
      WindowAccumulators(c, j + 1);
      assert WindowRow(c, j);
      WindowLookup(j, c.digit[j], c.factor[j]);
      ZeroSmall(c.acc[j] as int - c.digit[j] - c.acc[j + 1] * 32);
    }
  }

  /** From row `j` on, the cells compute the windowed chain of the accumulator in that row. */
  lemma {:induction false} WindowChainSound(c: ChainCells, j: nat)
    requires WindowChainHolds(c) && j <= WINDOWS && c.f[j] <= ONE
    ensures c.f[WINDOWS] == WindowChain(c.f[j], c.acc[j], j, WINDOWS - j)
    decreases WINDOWS - j
  {
    if j < WINDOWS {
      WindowAccumulators(c, j + 1);
      assert WindowRow(c, j);
      WindowRowSound(c, j);
      ChainBound(ONE, c.digit[j], 5 * j, WINDOW_BITS);
      WindowChainSound(c, j + 1);
      WindowChainUnfolds(c.f[j], c.acc[j], c.digit[j], c.acc[j + 1], j, WINDOWS - j);
    }
  }

  lemma WindowChainUnfolds(f: nat, acc: nat, digit: nat, rest: nat, j: nat, n: nat)
    requires 0 < n && j + n <= WINDOWS && digit < 32 && acc == digit + 32 * rest
    ensures WindowChain(f, acc, j, n) == WindowChain(MulQ64(f, WindowFactor(j, digit)), rest, j + 1, n - 1)
  {
    DivUnique(acc, 32, rest, digit);
  }

  lemma BitGateSound(f: nat, fNext: nat, r: nat, bit: nat, acc: nat, fRowNext: nat, accNext: nat, p: nat)
    requires NoZeroDivisors() && f <= ONE && p < ONE && fNext < RANGE_LIMIT && r < ONE && accNext < 0x200_0000
    requires acc < P && fRowNext < P && bit < P
    requires BitGate(f, fNext, r, bit, acc, fRowNext, accNext, p)
    ensures bit <= 1 && acc == bit + 2 * accNext
    ensures fRowNext == if bit == 1 then Scale(f, p) else f
  {
    BooleanCell(bit);
    ScaleUnique(f, p, fNext, r);
    assert Times(1, fNext) == fNext && Times(1, f) == f;
    ZeroSmall(fRowNext - Times(bit, fNext) - Times(1 - bit, f));
    ZeroSmall(acc as int - bit - accNext * 2);
  }

  lemma BitRowSound(c: ChainCells, i: nat)
    requires NoZeroDivisors() && ChainShape(c, REM_BITS) && i < REM_BITS && BitRow(c, i)
    requires c.f[i] <= ONE && c.acc[i + 1] < 0x200_0000
    ensures c.acc[i] == c.digit[i] + 2 * c.acc[i + 1] && c.digit[i] <= 1
    ensures c.f[i + 1] == Step(c.f[i], c.digit[i], i)
  {
    RangeCheckedExact(c.fNext[i]);
    RemainderCheckedExact(c.fRem[i]);
    BitGateSound(c.f[i], c.fNext[i], c.fRem[i], c.digit[i], c.acc[i], c.f[i + 1], c.acc[i + 1], DecayPower(i));
  }

  lemma {:induction false} BitAccumulators(c: ChainCells, i: nat)
    requires NoZeroDivisors() && BitChainHolds(c) && i <= REM_BITS
    ensures c.acc[i] < Pow2(REM_BITS - i)
    decreases REM_BITS - i
  {
    if i < REM_BITS {
      BitAccumulators(c, i + 1);
      Pow2Monotone(REM_BITS - i, REM_BITS);
      Pow2Values();
      assert BitRow(c, i);
      BooleanCell(c.digit[i]);
      ZeroSmall(c.acc[i] as int - c.digit[i] - c.acc[i + 1] * 2);
    }
  }

  lemma {:induction false} BitChainSound(c: ChainCells, i: nat)
    requires NoZeroDivisors() && BitChainHolds(c) && i <= REM_BITS && c.f[i] <= ONE
    ensures c.f[REM_BITS] == Chain(c.f[i], c.acc[i], i, REM_BITS - i)
    decreases REM_BITS - i
  {
    if i < REM_BITS {
      BitAccumulators(c, i + 1);
      Pow2Monotone(REM_BITS - i - 1, REM_BITS);
      Pow2Values();
      assert BitRow(c, i);
      BitRowSound(c, i);
      assert c.acc[i] % 2 == c.digit[i] && c.acc[i] / 2 == c.acc[i + 1];
      BitChainSound(c, i + 1);
    }
  }

  /** The two time stamps, 40 bits each, can only be divided by the year as integers. */
  lemma DurationSound(now: nat, tNote: nat, rem: nat, t: TailCells)
    requires now < TIMESTAMP_LIMIT && tNote < TIMESTAMP_LIMIT && rem < 0x200_0000 && t.times < P && t.bound < P
    requires DurationHolds(now, tNote, rem, t)
    ensures now >= tNote && t.times == (now - tNote) / 31_556_952 && rem == (now - tNote) % 31_556_952
  {
    RangeCheckedExact(t.times);
    RangeCheckedExact(t.bound);
    ZeroSmall(t.bound as int - 31_556_951 + rem);
    ZeroSmall(now as int - tNote - t.times * 31_556_952 - rem);
  }

  /** The equations of the shift hold as integers; `r < pow` is what `d` shows. */
  lemma ShiftEquations(v: nat, x: nat, r: nat, pow: nat, d: nat)
    requires v < VALUE_LIMIT && r < RANGE_LIMIT && d < RANGE_LIMIT
    requires x <= 0x20_0000_0000_0000_0000_0000_0000_0000_0000_0000_0000_0000_0000_0000
    requires pow <= 0x8000_0000_0000_0000_0000_0000_0000_0000
    requires Zero(v as int - x - r) && Zero(d as int - (pow - 1 - r))
    ensures v == x + r && d == pow - 1 - r
  {
    ZeroSmall(v as int - x - r);
    ZeroSmall(d as int - (pow - 1 - r));
  }

  lemma TablePower(s: nat)
    requires s <= POW_TABLE_MAX
    ensures Pow2(s) <= 0x8000_0000_0000_0000_0000_0000_0000_0000
    ensures s > 70 ==> Pow2(s) >= 0x80_0000_0000_0000_0000
  {
    Pow2Monotone(s, POW_TABLE_MAX);
    Pow2Values();
    Pow2Add(64, 63);
    if s > 70 { Pow2Monotone(71, s); }
  }

  lemma ShiftDivision(v: nat, q: nat, r: nat, s: nat, pow: nat, d: nat)
    requires v < VALUE_LIMIT && q < RANGE_LIMIT && r < RANGE_LIMIT && d < RANGE_LIMIT
    requires s <= POW_TABLE_MAX && pow == Pow2(s)
    requires Zero(v as int - Times(q, pow) - r) && Zero(d as int - (pow - 1 - r))
    ensures s <= 70 && r < pow && q == v / pow
  {
    TablePower(s);
    var x := Times(q, pow);
    TimesIsProduct(q, pow);
    MulMonotone(q, 0x40_0000_0000_0000_0000, pow);
    ShiftEquations(v, x, r, pow, d);
    DivUnique(v, pow, q, r);
  }

  lemma LargeShift(v: nat, s: nat)
    requires v < VALUE_LIMIT && s >= 63
    ensures v / Pow2(s) == 0
  {
    Pow2Monotone(63, s);
    Pow2Values();
    DivSmall(v, Pow2(s));
  }

  /**
   The shift is right for every assignment, although `big` is not unique for 63 to 70 years: there
   the table still holds `2^times` and the quotient is 0 anyway.
   */
  lemma ShiftSound(windowed: bool, value: nat, t: TailCells)
    requires NoZeroDivisors() && value < VALUE_LIMIT && TailInField(t) && t.times < RANGE_LIMIT
    requires ShiftHolds(windowed, value, t)
    ensures t.shifted == Shifted(value, t.times)
  {
    RangeCheckedExact(t.q);
    RangeCheckedExact(t.r);
    RangeCheckedExact(t.d);
    RangeCheckedExact(t.w);
    BooleanCell(t.big);
    ShiftDivision(value, t.q, t.r, t.s, t.pow, t.d);
    if t.big == 0 {
      SmallShift(value, t.q, t.r, t.s, t.pow, t.times, t.w, t.shifted, t.d);
      if t.times >= 63 { LargeShift(value, t.times); }
    } else {
      BigShift(value, t.q, t.r, t.s, t.pow, t.times, t.w, t.shifted, t.d);
    }
  }

  lemma SmallShift(v: int, q: nat, r: int, sh: nat, pow: int, times: nat, w: int, shifted: nat, d: int)
    requires ShiftGate(v, q, r, sh, 0, pow, times, w, shifted, d) && q < P && sh < P && times < P && shifted < P
    ensures times == sh && shifted == q
  {
    assert Times(1, times - sh) == times - sh && Times(1, q) == q;
    ZeroSmall(times as int - sh);
    ZeroSmall(shifted as int - q);
  }

  lemma BigShift(v: int, q: int, r: int, sh: int, pow: int, times: nat, w: nat, shifted: nat, d: int)
    requires ShiftGate(v, q, r, sh, 1, pow, times, w, shifted, d) && times < RANGE_LIMIT && w < RANGE_LIMIT && shifted < P
    ensures times >= 63 && shifted == 0
  {
    assert Times(1, times - 63) == times - 63 && Times(0, q) == 0;
    ZeroSmall(w - (times - 63));
    ZeroSmall(shifted);
  }

  lemma RoundSound(fLast: nat, t: TailCells)
    requires t.shifted < VALUE_LIMIT && fLast <= ONE && t.decayed < P && t.roundRem < P
    requires RoundHolds(fLast, t)
    ensures t.decayed == RoundHalfUp(t.shifted, fLast)
  {
    RangeCheckedExact(t.decayed);
    RemainderCheckedExact(t.roundRem);
    RoundUnique(t.shifted, fLast, t.decayed, t.roundRem);
  }

  lemma RoundUnique(s: nat, f: nat, q: nat, r: nat)
    requires s < VALUE_LIMIT && f <= ONE && q < RANGE_LIMIT && r < ONE && RoundGate(s, f, q, r)
    ensures q == RoundHalfUp(s, f)
  {
    ProductBelow(s, f);
    TimesIsProduct(s, f);
    QuotientUnique(Times(s, f) + 0x8000_0000_0000_0000, q, r);
  }

  lemma ProductBelow(s: nat, f: nat)
    requires s < VALUE_LIMIT && f <= ONE
    ensures s * f < 0x3_0000_0000_0000_0000_0000_0000_0000_0000
  {
    MulMonotone(s, VALUE_LIMIT, f);
    MulMonotone(f, ONE, VALUE_LIMIT);
  }

  /**
   Soundness of the chip: whatever a prover assigns, the note is not from the future and the
   cell holds the integer decay, windowed or bit by bit.
   */
  lemma DecayChipSound(windowed: bool, now: nat, value: nat, tNote: nat, decayed: nat, c: ChainCells, t: TailCells)
    requires NoZeroDivisors() && value < VALUE_LIMIT && now < TIMESTAMP_LIMIT && tNote < TIMESTAMP_LIMIT
    requires ChipHolds(windowed, now, value, tNote, decayed, c, t)
    ensures now >= tNote
    ensures decayed == if windowed then DecayWindowed(value, now - tNote) else Decay(value, now - tNote)
  {
    var rem := c.acc[0];
    if windowed {
      WindowAccumulators(c, 0);
      WindowChainSound(c, 0);
      WindowChainBound(ONE, rem, 0, WINDOWS);
    } else {
      BitAccumulators(c, 0);
      Pow2Values();
      BitChainSound(c, 0);
      ChainBound(ONE, rem, 0, REM_BITS);
    }
    DurationSound(now, tNote, rem, t);
    RangeCheckedExact(t.times);
    ShiftSound(windowed, value, t);
    ShiftedBound(value, t.times);
    RoundSound(c.f[|c.f| - 1], t);
  }

  // ---------------------------------------------------------------- completeness

  /** The accumulator column: `rem >> (step * row)`, closed by the constant 0. */
  function AccColumn(rem: nat, step: nat, rows: nat): (acc: seq<nat>)
    ensures |acc| == rows + 1
  {
    seq(rows + 1, (row: nat) => if row == rows then 0 else Shr(rem, step * row))
  }

  function WindowCells(t: WindowedTrace): ChainCells
    requires |t.f| == WINDOWS + 1
  {
    ChainCells([ONE] + t.f[1..], t.f[1..], t.fRem, t.digits, AccColumn(t.rem, WINDOW_BITS, WINDOWS), t.factors)
  }

  function BitCells(t: DecayTrace): ChainCells
    requires |t.f| == REM_BITS + 1 && |t.bits| == REM_BITS
  {
    var bits := seq(REM_BITS, i requires 0 <= i < |t.bits| => if t.bits[i] then 1 else 0);
    ChainCells([ONE] + t.f[1..], t.fNext, t.fRem, bits, AccColumn(t.rem, 1, REM_BITS), seq(REM_BITS, _ => 0))
  }

  function TailOf(t: ShiftTrace, times: nat, rem: nat, result: nat, roundRem: nat): TailCells
    requires rem <= 31_556_951 && t.r < t.pow && (t.big ==> times >= 63)
  {
    TailCells(times, 31_556_951 - rem, t.q, t.r, t.shift, if t.big then 1 else 0, t.pow,
              if t.big then times - 63 else 0, t.shifted, t.pow - 1 - t.r, result, roundRem)
  }

  /** `assign_window_chain`: the cells of the window rows, filled row by row. */
  method AssignWindowChain(trace: WindowedTrace) returns (c: ChainCells)
    requires |trace.digits| == WINDOWS && |trace.factors| == WINDOWS && |trace.fRem| == WINDOWS && |trace.f| == WINDOWS + 1
    ensures c == WindowCells(trace)
  {
    ghost var full := AccColumn(trace.rem, WINDOW_BITS, WINDOWS);
    var f, acc, fNext, fRem, digit, factor := [ONE], [], [], [], [], [];
    for j := 0 to WINDOWS
      invariant f == [ONE] + trace.f[1..j + 1] && acc == full[..j]
      invariant fNext == trace.f[1..j + 1] && fRem == trace.fRem[..j]
      invariant digit == trace.digits[..j] && factor == trace.factors[..j]
    {
      fNext := fNext + [trace.f[j + 1]];
      fRem := fRem + [trace.fRem[j]];
      digit := digit + [trace.digits[j]];
      factor := factor + [trace.factors[j]];
      acc := acc + [Shr(trace.rem, WINDOW_BITS * j)];
      f := f + [trace.f[j + 1]];
      assert trace.f[1..j + 2] == trace.f[1..j + 1] + [trace.f[j + 1]];
      assert full[..j + 1] == full[..j] + [full[j]];
    }
    acc := acc + [0];
    assert acc == full;
    c := ChainCells(f, fNext, fRem, digit, acc, factor);
  }

  /** `assign_bit_chain`: the cells of the bit rows. */
  method AssignBitChain(trace: DecayTrace) returns (c: ChainCells)
    requires |trace.bits| == REM_BITS && |trace.fNext| == REM_BITS && |trace.fRem| == REM_BITS && |trace.f| == REM_BITS + 1
    ensures c == BitCells(trace)
  {
    ghost var full := AccColumn(trace.rem, 1, REM_BITS);
    var f, acc, fNext, fRem, bits := [ONE], [], [], [], [];
    for i := 0 to REM_BITS
      invariant f == [ONE] + trace.f[1..i + 1] && acc == full[..i]
      invariant fNext == trace.fNext[..i] && fRem == trace.fRem[..i]
      invariant |bits| == i && forall k | 0 <= k < i :: bits[k] == if trace.bits[k] then 1 else 0
    {
      fNext := fNext + [trace.fNext[i]];
      fRem := fRem + [trace.fRem[i]];
      bits := bits + [if trace.bits[i] then 1 else 0];
      acc := acc + [Shr(trace.rem, i)];
      f := f + [trace.f[i + 1]];
      assert trace.f[1..i + 2] == trace.f[1..i + 1] + [trace.f[i + 1]];
      assert full[..i + 1] == full[..i] + [full[i]];
    }
    acc := acc + [0];
    assert acc == full;
    c := ChainCells(f, fNext, fRem, bits, acc, seq(REM_BITS, _ => 0));
    assert c.digit == BitCells(trace).digit;
  }

  lemma {:induction false} ShrWindowStep(x: nat, j: nat)
    ensures Shr(x, 5 * j) / 32 == Shr(x, 5 * (j + 1)) && Shr(x, 5 * j) % 32 == Digit(x, j)
  {
    DigitIsShift(x, j);
    ShrIsDiv(x, 5 * j);
    ShrIsDiv(x, 5 * (j + 1));
    DivPow2Add(x, 5 * j, 5);
    Pow2Five();
  }

  lemma ShrEnds(x: nat)
    requires x < 0x200_0000
    ensures Shr(x, 25) == 0
  {
    ShrIsDiv(x, 25);
    Pow2Values();
  }

  /** The accumulator column drops one digit per row. */
  lemma AccWindows(rem: nat, j: nat)
    requires rem < 0x200_0000 && j < WINDOWS
    ensures var acc := AccColumn(rem, WINDOW_BITS, WINDOWS);
      acc[j] == Digit(rem, j) + 32 * acc[j + 1] && acc[j] <= rem && acc[j + 1] <= rem && acc[0] == rem
  {
    ShrWindowStep(rem, j);
    ShrEnds(rem);
    ShrIsDiv(rem, 5 * j);
    ShrIsDiv(rem, 5 * (j + 1));
    DivByPositive(rem, Pow2(5 * j));
    DivByPositive(rem, Pow2(5 * (j + 1)));
  }

  lemma AccBits(rem: nat, i: nat)
    requires rem < 0x200_0000 && i < REM_BITS
    ensures var acc := AccColumn(rem, 1, REM_BITS);
      acc[i] == Bit(rem, i) + 2 * acc[i + 1] && acc[i] <= rem && acc[i + 1] <= rem && acc[0] == rem
  {
    ShrStep(rem, i);
    ShrEnds(rem);
    ShrIsDiv(rem, i);
    ShrIsDiv(rem, i + 1);
    DivByPositive(rem, Pow2(i));
    DivByPositive(rem, Pow2(i + 1));
  }

  lemma ScaleSplit(f: nat, p: nat)
    requires f <= ONE && p <= ONE
    ensures Times(f, p) - Scale(f, p) * 0x1_0000_0000_0000_0000 - ScaleRem(f, p) == 0 && ScaleRem(f, p) < ONE && Scale(f, p) <= ONE
  {
    TimesIsProduct(f, p);
  }

  lemma WindowRowComplete(f: nat, digit: nat, acc: nat, accNext: nat, j: nat)
    requires j < WINDOWS && f <= ONE && digit < WINDOW_SIZE && acc == digit + 32 * accNext && acc < 0x200_0000
    ensures var factor := WindowFactor(j, digit); var next := MulQ64(f, factor);
      && WindowGate(f, next, ScaleRem(f, factor), digit, acc, factor, next, accNext)
      && TableRow(true, j, digit, factor) && factor <= ONE && next <= ONE
      && RangeChecked(next) && RemainderChecked(ScaleRem(f, factor))
  {
    var factor := WindowFactor(j, digit);
    ChainBound(ONE, digit, 5 * j, WINDOW_BITS);
    ScaleSplit(f, factor);
    RangeCheckedExact(MulQ64(f, factor));
    RemainderCheckedExact(ScaleRem(f, factor));
  }

  /** What the windowed trace puts into row `j`. */
  ghost predicate HonestWindow(c: ChainCells, j: nat)
  {
    && j < WINDOWS
    && |c.fNext| == WINDOWS && |c.fRem| == WINDOWS && |c.digit| == WINDOWS && |c.factor| == WINDOWS
    && |c.f| == WINDOWS + 1 && |c.acc| == WINDOWS + 1
    && c.f[j] <= ONE && c.f[j + 1] <= ONE && c.acc[j] < 0x200_0000 && c.acc[j + 1] < 0x200_0000
    && c.digit[j] < WINDOW_SIZE && c.factor[j] == WindowFactor(j, c.digit[j]) && c.factor[j] <= ONE
    && c.acc[j] == c.digit[j] + 32 * c.acc[j + 1]
    && c.f[j + 1] == c.fNext[j] == MulQ64(c.f[j], c.factor[j]) && c.fRem[j] == ScaleRem(c.f[j], c.factor[j])
    && c.fRem[j] < ONE
  }

  lemma HonestWindowRow(t: WindowedTrace, value: nat, duration: nat, j: nat)
    requires WindowedTraceOk(t, value, duration) && j < WINDOWS
    ensures HonestWindow(WindowCells(t), j)
  {
    WindowChainSnoc(ONE, t.rem, 0, j);
    WindowChainBound(ONE, t.rem, 0, j);
    WindowChainBound(ONE, t.rem, 0, j + 1);
    AccWindows(t.rem, j);
    ChainBound(ONE, t.digits[j], 5 * j, WINDOW_BITS);
  }

  /** The windowed trace satisfies every row of its chain. */
  lemma WindowCellsHold(t: WindowedTrace, value: nat, duration: nat)
    requires WindowedTraceOk(t, value, duration)
    ensures WindowChainHolds(WindowCells(t))
    ensures WindowCells(t).acc[0] == t.rem && WindowCells(t).f[WINDOWS] == WindowedFactor(t.rem)
  {
    var c := WindowCells(t);
    forall j: nat | j < WINDOWS ensures HonestWindow(c, j) {
      HonestWindowRow(t, value, duration, j);
    }
    HonestShape(c);
    forall j: nat | j < WINDOWS ensures WindowRow(c, j) {
      assert HonestWindow(c, j);
      HonestWindowHolds(c, j);
    }
    assert HonestWindow(c, 0);
    AccWindows(t.rem, 0);
  }

  lemma HonestWindowHolds(c: ChainCells, j: nat)
    requires ChainShape(c, WINDOWS) && HonestWindow(c, j)
    ensures WindowRow(c, j)
  {
    WindowRowComplete(c.f[j], c.digit[j], c.acc[j], c.acc[j + 1], j);
  }

  lemma HonestShape(c: ChainCells)
    requires forall j: nat | j < WINDOWS :: HonestWindow(c, j)
    ensures ChainShape(c, WINDOWS)
  {
    assert HonestWindow(c, 0);
    forall i | 0 <= i <= WINDOWS ensures c.f[i] < P && c.acc[i] < P {
      assert if i < WINDOWS then HonestWindow(c, i) else HonestWindow(c, i - 1);
    }
    forall i | 0 <= i < WINDOWS ensures c.fNext[i] < P && c.fRem[i] < P && c.digit[i] < P && c.factor[i] < P {
      assert HonestWindow(c, i);
    }
  }

  lemma BitRowComplete(f: nat, bit: nat, acc: nat, accNext: nat, i: nat)
    requires i < REM_BITS && f <= ONE && bit <= 1 && acc == bit + 2 * accNext && acc < 0x200_0000
    ensures var p := DecayPower(i); var next := Scale(f, p);
      && BitGate(f, next, ScaleRem(f, p), bit, acc, Step(f, bit, i), accNext, p)
      && next <= ONE && RangeChecked(next) && RemainderChecked(ScaleRem(f, p))
  {
    var p := DecayPower(i);
    ScaleSplit(f, p);
    assert Times(1, Scale(f, p)) == Scale(f, p) && Times(1, f) == f;
    RangeCheckedExact(Scale(f, p));
    RemainderCheckedExact(ScaleRem(f, p));
  }

  /** What the bit trace puts into row `i`. */
  ghost predicate HonestBit(c: ChainCells, i: nat)
  {
    && i < REM_BITS
    && |c.fNext| == REM_BITS && |c.fRem| == REM_BITS && |c.digit| == REM_BITS && |c.factor| == REM_BITS
    && |c.f| == REM_BITS + 1 && |c.acc| == REM_BITS + 1
    && c.f[i] <= ONE && c.f[i + 1] <= ONE && c.acc[i] < 0x200_0000 && c.acc[i + 1] < 0x200_0000
    && c.digit[i] <= 1 && c.factor[i] == 0 && c.acc[i] == c.digit[i] + 2 * c.acc[i + 1]
    && c.f[i + 1] == Step(c.f[i], c.digit[i], i)
    && c.fNext[i] == Scale(c.f[i], DecayPower(i)) && c.fNext[i] <= ONE
    && c.fRem[i] == ScaleRem(c.f[i], DecayPower(i)) && c.fRem[i] < ONE
  }

  lemma HonestBitRow(t: DecayTrace, value: nat, duration: nat, i: nat)
    requires DecayTraceOk(t, value, duration) && i < REM_BITS
    ensures HonestBit(BitCells(t), i)
  {
    ChainSnoc(ONE, t.rem, 0, i);
    ChainBound(ONE, t.rem, 0, i);
    ChainBound(ONE, t.rem, 0, i + 1);
    AccBits(t.rem, i);
    BitBound(t.rem, i);
    ScaleSplit(t.f[i], DecayPower(i));
  }

  lemma HonestBitShape(c: ChainCells)
    requires forall i: nat | i < REM_BITS :: HonestBit(c, i)
    ensures ChainShape(c, REM_BITS)
  {
    assert HonestBit(c, 0);
    forall i | 0 <= i <= REM_BITS ensures c.f[i] < P && c.acc[i] < P {
      assert if i < REM_BITS then HonestBit(c, i) else HonestBit(c, i - 1);
    }
    forall i | 0 <= i < REM_BITS ensures c.fNext[i] < P && c.fRem[i] < P && c.digit[i] < P && c.factor[i] < P {
      assert HonestBit(c, i);
    }
  }

  /** The bit trace satisfies every row of its chain. */
  lemma BitCellsHold(t: DecayTrace, value: nat, duration: nat)
    requires DecayTraceOk(t, value, duration)
    ensures BitChainHolds(BitCells(t))
    ensures BitCells(t).acc[0] == t.rem && BitCells(t).f[REM_BITS] == BitFactor(t.rem)
  {
    var c := BitCells(t);
    forall i: nat | i < REM_BITS ensures HonestBit(c, i) {
      HonestBitRow(t, value, duration, i);
    }
    HonestBitShape(c);
    forall i: nat | i < REM_BITS ensures BitRow(c, i) {
      assert HonestBit(c, i);
      HonestBitHolds(c, i);
    }
    assert HonestBit(c, 0);
    AccBits(t.rem, 0);
  }

  lemma HonestBitHolds(c: ChainCells, i: nat)
    requires ChainShape(c, REM_BITS) && HonestBit(c, i)
    ensures BitRow(c, i)
  {
    BitRowComplete(c.f[i], c.digit[i], c.acc[i], c.acc[i + 1], i);
  }

  /** The tail of either trace satisfies the duration, shift and rounding rows. */
  lemma TailComplete(windowed: bool, now: nat, value: nat, tNote: nat, f: nat, t: TailCells)
    requires tNote <= now < ONE && value < VALUE_LIMIT && f <= ONE
    requires var d := now - tNote; var times, rem := d / 31_556_952, d % 31_556_952;
      var s := ShiftTraceOf(value, times, SHIFT_LIMIT);
      t == TailOf(s, times, rem, RoundHalfUp(s.shifted, f), (s.shifted * f + 0x8000_0000_0000_0000) % 0x1_0000_0000_0000_0000)
    ensures TailInField(t) && DurationHolds(now, tNote, (now - tNote) % 31_556_952, t)
    ensures ShiftHolds(windowed, value, t) && RoundHolds(f, t)
  {
    var d := now - tNote;
    var times, rem := d / 31_556_952, d % 31_556_952;
    var s := ShiftTraceOf(value, times, SHIFT_LIMIT);
    RangeCheckedExact(times);
    RangeCheckedExact(t.bound);
    ShiftComplete(windowed, value, times, t);
    ShiftedBound(value, times);
    RoundFitsU128(s.shifted, f);
    TimesIsProduct(s.shifted, f);
    RangeCheckedExact(t.decayed);
    RemainderCheckedExact(t.roundRem);
  }

  lemma ShiftComplete(windowed: bool, value: nat, times: nat, t: TailCells)
    requires value < VALUE_LIMIT && times < ONE
    requires var s := ShiftTraceOf(value, times, SHIFT_LIMIT);
      && t.times == times && t.q == s.q && t.r == s.r && t.s == s.shift && t.pow == s.pow && t.shifted == s.shifted
      && t.big == (if s.big then 1 else 0) && t.w == (if s.big then times - 63 else 0) && t.d == s.pow - 1 - s.r
    ensures ShiftHolds(windowed, value, t)
    ensures t.q <= value && t.pow < VALUE_LIMIT && t.r < t.pow
  {
    var s := ShiftTraceOf(value, times, SHIFT_LIMIT);
    Pow2Monotone(s.shift, 62);
    Pow2Values();
    assert Pow2(63) == 2 * Pow2(62);
    DivByPositive(value, s.pow);
    TimesIsProduct(s.q, s.pow);
    FlagRows(s.big, times, s.shift, s.q);
    RangeCheckedExact(t.q);
    RangeCheckedExact(t.r);
    RangeCheckedExact(t.d);
    RangeCheckedExact(t.w);
  }

  /** The products with the flag, for either value of it. */
  lemma FlagRows(big: bool, times: int, sh: int, q: int)
    requires big ==> sh == 0
    requires !big ==> times == sh
    ensures var flag := if big then 1 else 0;
      && Times(flag, 1 - flag) == 0 && Times(1 - flag, times - sh) == 0 && Times(flag, sh) == 0
      && Times(flag, times - 63) == (if big then times - 63 else 0) && Times(1 - flag, q) == (if big then 0 else q)
  {
    assert Times(1, 0) == 0 && Times(0, 1) == 0;
    assert Times(1, times - 63) == times - 63 && Times(1, q) == q;
  }

  /**
   Completeness of the chip: a note that is not from the future always has a witness, and the
   cells are those of the native traces.
   */
  lemma DecayChipComplete(windowed: bool, now: nat, value: nat, tNote: nat) returns (c: ChainCells, t: TailCells)
    requires value < VALUE_LIMIT && tNote <= now < ONE
    ensures var decayed := if windowed then DecayWindowed(value, now - tNote) else Decay(value, now - tNote);
      ChipHolds(windowed, now, value, tNote, decayed, c, t)
  {
    var d := now - tNote;
    var times, rem := d / 31_556_952, d % 31_556_952;
    var s := ShiftTraceOf(value, times, SHIFT_LIMIT);
    var f := if windowed then WindowedFactor(rem) else BitFactor(rem);
    var decayed := RoundHalfUp(s.shifted, f);
    t := TailOf(s, times, rem, decayed, (s.shifted * f + 0x8000_0000_0000_0000) % 0x1_0000_0000_0000_0000);
    if windowed {
      var trace := WindowedTraceExists(value, d);
      c := WindowCells(trace);
      WindowCellsHold(trace, value, d);
      WindowChainBound(ONE, rem, 0, WINDOWS);
    } else {
      var trace := DecayTraceExists(value, d);
      c := BitCells(trace);
      BitCellsHold(trace, value, d);
      ChainBound(ONE, rem, 0, REM_BITS);
    }
    TailComplete(windowed, now, value, tNote, f, t);
  }

  lemma WindowedTraceExists(value: nat, duration: nat) returns (t: WindowedTrace)
    ensures WindowedTraceOk(t, value, duration)
  {
    var times, rem := duration / 31_556_952, duration % 31_556_952;
    var s := ShiftTraceOf(value, times, SHIFT_LIMIT);
    var f := seq(WINDOWS + 1, j requires 0 <= j <= WINDOWS => WindowChain(ONE, rem, 0, j));
    var factors := seq(WINDOWS, j requires 0 <= j < WINDOWS => WindowFactor(j, Digit(rem, j)));
    t := WindowedTrace(times, rem, s, seq(WINDOWS, j requires 0 <= j < WINDOWS => Digit(rem, j)), factors, f,
      seq(WINDOWS, j requires 0 <= j < WINDOWS => ScaleRem(f[j], factors[j])),
      DecayWindowed(value, duration), (s.shifted * WindowedFactor(rem) + HALF) % 0x1_0000_0000_0000_0000);
  }

  lemma DecayTraceExists(value: nat, duration: nat) returns (t: DecayTrace)
    ensures DecayTraceOk(t, value, duration)
  {
    var times, rem := duration / 31_556_952, duration % 31_556_952;
    var s := ShiftTraceOf(value, times, SHIFT_LIMIT);
    var f := seq(REM_BITS + 1, i requires 0 <= i <= REM_BITS => Chain(ONE, rem, 0, i));
    t := DecayTrace(times, rem, s, seq(REM_BITS, i requires 0 <= i < REM_BITS => Bit(rem, i) == 1), f,
      seq(REM_BITS, i requires 0 <= i < REM_BITS => Scale(f[i], DecayPower(i))),
      seq(REM_BITS, i requires 0 <= i < REM_BITS => ScaleRem(f[i], DecayPower(i))),
      Decay(value, duration), (s.shifted * BitFactor(rem) + HALF) % 0x1_0000_0000_0000_0000);
  }

  /** From 63 to 70 years a prover may set `big` either way; `ShiftSound` says it makes no difference. */
  lemma BigIsFree(windowed: bool, value: nat, times: nat) returns (small: TailCells, big: TailCells)
    requires value < VALUE_LIMIT && 63 <= times <= 70
    ensures ShiftHolds(windowed, value, small) && small.times == times && small.big == 0 && small.shifted == 0
    ensures ShiftHolds(windowed, value, big) && big.times == times && big.big == 1 && big.shifted == 0
  {
    var s := ShiftTraceOf(value, times, SHIFT_LIMIT);
    big := TailOf(s, times, 0, 0, 0);
    ShiftComplete(windowed, value, times, big);
    var pow := Pow2(times);
    Pow2Monotone(63, times);
    Pow2Monotone(times, 70);
    Pow2Values();
    small := TailCells(times, 0, 0, value, times, 0, pow, 0, 0, pow - 1 - value, 0, 0);
    FlagRows(false, times, times, 0);
    RangeCheckedExact(0);
    RangeCheckedExact(value);
    RangeCheckedExact(small.d);
  }
}
