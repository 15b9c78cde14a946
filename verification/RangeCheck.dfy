/**
 Range checks on top of the 10-bit lookup. A running sum takes a cell apart into 10-bit words;
 the bits that do not fill a word are covered by a short check on what the running sum leaves.
 */
module RangeCheck {
  import opened Arithmetic
  import opened Field

  const WORD_BITS: nat := 10

  /** The lookup: a cell lies in the table of 10-bit words. */
  predicate InWordTable(x: nat) { x < 1024 }

  /** The word a running sum takes off between `z` and `next`. */
  function Word(z: int, next: int): nat { Reduce(z - 1024 * next) }

  /**
   The running sum over `words` words: every `z[i] - 2^10 z[i+1]` is looked up, so `z[words]` is
   what remains of `x` above the words.
   */
  ghost predicate RunningSum(x: nat, words: nat, zs: seq<nat>)
  {
    && |zs| == words + 1 && zs[0] == x
    && (forall i | 0 <= i <= words :: zs[i] < P)
    && (forall i | 0 <= i < words :: InWordTable(Word(zs[i], zs[i + 1])))
  }

  /** `copy_check` in strict mode: the running sum ends in 0. */
  ghost predicate StrictWords(x: nat, words: nat)
  {
    exists zs :: RunningSum(x, words, zs) && zs[words] == 0
  }

  /** `copy_short_check`: `x` and `x * 2^(10 - bits)` are both looked up. */
  predicate ShortCheck(x: nat, bits: nat)
    requires bits <= WORD_BITS
  {
    InWordTable(x) && InWordTable(Reduce(x * Pow2(WORD_BITS - bits)))
  }

  /** The constraints `check_bits` emits for a cell, branch by branch. */
  ghost predicate CheckBits(x: nat, bits: nat)
  {
    var words, extra := bits / 10, bits % 10;
    if words == 0 then ShortCheck(x, extra)
    else if extra == 0 then StrictWords(x, words)
    else exists zs :: RunningSum(x, words, zs) && ShortCheck(zs[words], extra)
  }

  /** The short check is exact. */
  lemma ShortCheckExact(x: nat, bits: nat)
    requires bits <= WORD_BITS && x < P
    ensures ShortCheck(x, bits) <==> x < Pow2(bits)
  {
    var m, n := Pow2(WORD_BITS - bits), Pow2(bits);
    Pow2Add(bits, WORD_BITS - bits);
    assert n * m == 1024 by { assert Pow2(10) == 1024; }
    WordFactors(n, m);
    if x < 1024 {
      ShiftedWord(x, n, m);
      ReduceSmall(x * m);
    }
  }

  lemma WordFactors(n: nat, m: nat)
    requires n * m == 1024
    ensures n <= 1024 && m <= 1024
  {
    if m > 1024 { MulMonotone(1, n, m); }
    if n > 1024 { MulMonotone(1, m, n); }
  }

  /** `x * m` stays a word exactly when `x` leaves `m` room. */
  lemma ShiftedWord(x: nat, n: nat, m: nat)
    requires n * m == 1024 && x < 1024 && m <= 1024
    ensures x * m < 1024 <==> x < n
    ensures x * m < 0x10_0000
  {
    MulMonotone(x, 1023, m);
    if x < n { MulMonotone(x + 1, n, m); } else { MulMonotone(n, x, m); }
  }

  /** One word more: nothing wraps around the modulus while the bound stays below it. */
  lemma WordStep(z: nat, next: nat, c: nat)
    requires z < P && InWordTable(Word(z, next)) && next < c && 1024 * c <= P
    ensures z == 1024 * next + Word(z, next) && z < 1024 * c
  {
    var k := Quotient(z - 1024 * next);
    assert k == 0;
  }

  /** `b * 2^(10 n)`. */
  function Cap(b: nat, n: nat): (c: nat)
    ensures b <= c
    decreases n, b
  {
    if n == 0 then b else 1024 * Cap(b, n - 1)
  }

  lemma {:induction false} CapIsProduct(b: nat, n: nat)
    ensures Cap(b, n) == b * Pow2(10 * n)
  {
    if n > 0 {
      CapIsProduct(b, n - 1);
      Pow2Add(10, 10 * (n - 1));
      assert Pow2(10) == 1024;
      MulAssoc(1024, b, Pow2(10 * (n - 1)));
    }
  }

  lemma {:induction false} CapMonotone(b: nat, m: nat, n: nat)
    requires m <= n
    ensures Cap(b, m) <= Cap(b, n)
    decreases n
  {
    if m < n { CapMonotone(b, m, n - 1); }
  }

  /** Words below `z[i]` only add low bits. */
  lemma {:induction false} RunningSumBound(x: nat, zs: seq<nat>, words: nat, i: nat, b: nat)
    requires i <= words && RunningSum(x, words, zs) && zs[words] < b && Cap(b, words) <= P
    ensures zs[i] < Cap(b, words - i)
    decreases words - i
  {
    if i < words {
      RunningSumBound(x, zs, words, i + 1, b);
      CapMonotone(b, words - i, words);
      WordStep(zs[i], zs[i + 1], Cap(b, words - i - 1));
    }
  }

  /** The honest running sum: drop ten bits at a time. */
  function Words(x: nat, words: nat): (zs: seq<nat>)
    ensures |zs| == words + 1 && zs[0] == x
    decreases words, x
  {
    if words == 0 then [x] else [x] + Words(x / 1024, words - 1)
  }

  lemma {:induction false} WordsRun(x: nat, words: nat)
    requires x < P
    ensures RunningSum(x, words, Words(x, words))
    ensures Words(x, words)[words] == x / Pow2(10 * words)
    decreases words
  {
    if words > 0 {
      var zs, rest := Words(x, words), Words(x / 1024, words - 1);
      WordsRun(x / 1024, words - 1);
      DropWord(x, words - 1);
      ReduceSmall(x % 1024);
      assert rest[0] == x / 1024;
      forall i | 0 <= i < words ensures InWordTable(Word(zs[i], zs[i + 1])) {
        assert i > 0 ==> zs[i] == rest[i - 1];
        assert zs[i + 1] == rest[i];
        assert x - 1024 * (x / 1024) == x % 1024;
      }
    }
  }

  lemma DropWord(x: nat, n: nat)
    ensures x / 1024 / Pow2(10 * n) == x / Pow2(10 * (n + 1))
  {
    assert Pow2(10) == 1024;
    DivPow2Add(x, 10, 10 * n);
  }

  lemma DivBelow(x: nat, b: nat, d: nat)
    requires d > 0
    ensures x / d < b <==> x < b * d
  {
    if x < b * d {
      if x / d >= b { MulMonotone(b, x / d, d); }
    } else {
      DivMonotone(b * d, x, d);
      DivUnique(b * d, d, b, 0);
    }
  }

  /** Whole words: a running sum that ends in 0 exists exactly below `2^(10 words)`. */
  lemma StrictWordsExact(x: nat, words: nat)
    requires x < P && 10 * words < 254
    ensures StrictWords(x, words) <==> x < Pow2(10 * words)
  {
    ModulusBound(10 * words);
    if StrictWords(x, words) {
      var zs :| RunningSum(x, words, zs) && zs[words] == 0;
      CapIsProduct(1, words);
      RunningSumBound(x, zs, words, 0, 1);
    }
    if x < Pow2(10 * words) {
      WordsRun(x, words);
      DivBelow(x, 1, Pow2(10 * words));
    }
  }

  lemma ModulusBound(n: nat)
    requires n <= 254
    ensures Pow2(n) <= P
  {
    Pow2Values();
    var half := SumOfExponents(64, 63);
    var whole := SumOfExponents(half, half);
    Pow2Monotone(n, whole);
  }

  lemma SumOfExponents(m: nat, n: nat) returns (s: nat)
    ensures s == m + n && Pow2(s) == Pow2(m) * Pow2(n)
  {
    s := m + n;
    Pow2Add(m, n);
  }

  /** `check_bits` is exact for every width the field can hold: satisfiable if and only if `x < 2^bits`. */
  lemma CheckBitsExact(x: nat, bits: nat)
    requires x < P && bits < 254
    ensures CheckBits(x, bits) <==> x < Pow2(bits)
  {
    var words, extra := bits / 10, bits % 10;
    assert bits == 10 * words + extra;
    if words == 0 {
      ShortCheckExact(x, extra);
    } else if extra == 0 {
      StrictWordsExact(x, words);
    } else {
      TopBits(x, words, extra);
    }
  }

  lemma TopBits(x: nat, words: nat, extra: nat)
    requires x < P && extra < WORD_BITS && 10 * words + extra < 254
    ensures (exists zs :: RunningSum(x, words, zs) && ShortCheck(zs[words], extra)) <==> x < Pow2(10 * words + extra)
  {
    ModulusBound(10 * words + extra);
    Pow2Add(extra, 10 * words);
    if zs :| RunningSum(x, words, zs) && ShortCheck(zs[words], extra) {
      ShortCheckExact(zs[words], extra);
      CapIsProduct(Pow2(extra), words);
      RunningSumBound(x, zs, words, 0, Pow2(extra));
    }
    if x < Pow2(10 * words + extra) {
      var zs := Words(x, words);
      WordsRun(x, words);
      DivBelow(x, Pow2(extra), Pow2(10 * words));
      ShortCheckExact(zs[words], extra);
    }
  }
}
