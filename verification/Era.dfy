/** The mortal era that a benchmark extrinsic is signed with: its period, the block whose
    hash it commits to, and the window in which that hash is still kept. */
module Era {
  import opened LittleEndian
  import opened Primitives

  /** 2400, the runtime's value. */
  const BLOCK_HASH_COUNT: u32 := 2400

  ghost predicate IsPowerOfTwo(p: nat) {
    exists k: nat :: p == Pow(2, k)
  }

  /** Doubles `p` until it is at least `n`. */
  function DoubleUntil(n: nat, p: nat): (r: nat)
    requires p > 0
    ensures r >= n && r >= p
    decreases n - p
  {
    if p >= n then p else DoubleUntil(n, 2 * p)
  }

  lemma {:induction false} DoubleUntilTight(n: nat, p: nat)
    requires p > 0
    ensures var r := DoubleUntil(n, p); r == p || r < 2 * n
    decreases n - p
  {
    if p >= n {
    } else {
      DoubleUntilTight(n, 2 * p);
    }
  }

  /** The smallest power of two that is at least `n`, if it is within the integer type. */
  function CheckedNextPowerOfTwo(n: nat, max: nat): Option<nat> {
    var p := DoubleUntil(n, 1);
    if p <= max then Some(p) else None
  }

  // ----- The era, as the runtime library defines it -----

  datatype MortalEra = MortalEra(period: nat, phase: nat) {
    predicate Valid() { period > 0 && phase < period }

    /** The block whose hash the signature covers, seen from block `current`. */
    function Birth(current: nat): nat
      requires Valid()
    {
      ((if current > phase then current else phase) - phase) / period * period + phase
    }

    /** The first block at which the extrinsic is no longer valid. */
    function Death(current: nat): nat
      requires Valid()
    {
      Birth(current) + period
    }
  }

  function Clamp(x: nat, low: nat, high: nat): nat
    requires low <= high
  {
    if x < low then low else if x > high then high else x
  }

  /** The period a mortal era really gets: a power of two from 4 to 65536. */
  function EffectivePeriod(period: u64): nat {
    var next := match CheckedNextPowerOfTwo(period, TWO_64 - 1)
                case Some(p) => p
                case None => 0x1_0000;
    Clamp(next, 4, 0x1_0000)
  }

  function QuantizeFactor(period: nat): (factor: nat)
    ensures factor >= 1
  {
    if period / 0x1000 > 1 then period / 0x1000 else 1
  }

  lemma DivMod(x: nat, d: nat)
    requires d > 0
    ensures x == x % d + d * (x / d)
  {
  }

  lemma QuantizeFacts(x: nat, factor: nat)
    requires factor > 0
    ensures x / factor * factor == x - x % factor
    ensures (x / factor * factor) % factor == 0
  {
    DivMod(x, factor);
    Regroup(1, factor, x / factor);
    DivModUnique(factor, x / factor, 0);
  }

  /** `x` rounded down to a multiple of `factor`. */
  function Quantize(x: nat, factor: nat): (q: nat)
    requires factor > 0
    ensures q == x - x % factor
    ensures q % factor == 0
  {
    QuantizeFacts(x, factor);
    x / factor * factor
  }

  function Mortal(period: u64, current: u64): MortalEra {
    var effective := EffectivePeriod(period);
    var phase := current % effective;
    var factor := QuantizeFactor(effective);
    MortalEra(effective, Quantize(phase, factor))
  }

  // ----- The benchmark extrinsic -----

  /** Half the next power of two of the block hash count, or 2 if there is none in a u32. */
  function BenchmarkPeriod(blockHashCount: u32): (period: nat) {
    match CheckedNextPowerOfTwo(blockHashCount, U32_MAX)
    case Some(c) => c / 2
    case None => 2
  }

  function BenchmarkEra(blockHashCount: u32, bestBlock: u32): MortalEra {
    DoubleUntilTight(blockHashCount, 1);
    Mortal(BenchmarkPeriod(blockHashCount), bestBlock)
  }

  // ----- Powers of two -----

  lemma {:induction false} DoubleUntilPower(n: nat, p: nat)
    requires p > 0 && IsPowerOfTwo(p)
    ensures IsPowerOfTwo(DoubleUntil(n, p))
    decreases n - p
  {
    if p >= n {
    } else {
      var k: nat :| p == Pow(2, k);
      assert 2 * p == Pow(2, k + 1);
      DoubleUntilPower(n, 2 * p);
    }
  }

  lemma OneIsPowerOfTwo()
    ensures IsPowerOfTwo(1)
  {
    assert Pow(2, 0) == 1;
  }

  lemma HalfPowerOfTwo(p: nat)
    requires IsPowerOfTwo(p) && p > 1
    ensures p % 2 == 0 && IsPowerOfTwo(p / 2)
  {
    var k: nat :| p == Pow(2, k);
    assert k > 0;
    assert p == 2 * Pow(2, k - 1);
  }

  /** Distinct powers of two are at least a factor of two apart. */
  lemma {:induction false} PowersApart(j: nat, k: nat)
    ensures j < k ==> 2 * Pow(2, j) <= Pow(2, k)
  {
    if j >= k {
    } else {
      assert Pow(2, k) == 2 * Pow(2, k - 1);
      if j + 1 < k {
        PowersApart(j, k - 1);
      }
    }
  }

  /** `DoubleUntil` finds the least power of two that is at least `n`. */
  lemma NextPowerIsLeast(n: nat)
    ensures IsPowerOfTwo(DoubleUntil(n, 1))
    ensures forall q: nat | IsPowerOfTwo(q) && q >= n :: DoubleUntil(n, 1) <= q
  {
    OneIsPowerOfTwo();
    DoubleUntilPower(n, 1);
    DoubleUntilTight(n, 1);
    var r := DoubleUntil(n, 1);
    var k: nat :| r == Pow(2, k);
    forall q: nat | IsPowerOfTwo(q) && q >= n ensures r <= q {
      var j: nat :| q == Pow(2, j);
      PowersApart(j, k);
      PowersApart(k, j);
    }
  }

  ghost predicate IsLargestPowerBelow(p: nat, n: nat) {
    IsPowerOfTwo(p) && p < n && forall q: nat | IsPowerOfTwo(q) && q < n :: q <= p
  }

  lemma HalfIsLargestBelow(n: nat)
    requires n >= 2
    ensures IsLargestPowerBelow(DoubleUntil(n, 1) / 2, n)
  {
    NextPowerIsLeast(n);
    DoubleUntilTight(n, 1);
    var r := DoubleUntil(n, 1);
    HalfPowerOfTwo(r);
    var k: nat :| r == Pow(2, k);
    forall q: nat | IsPowerOfTwo(q) && q < n ensures q <= r / 2 {
      var j: nat :| q == Pow(2, j);
      PowersApart(j, k);
      PowersApart(k, j);
    }
  }

  const TWO_31: nat := 0x8000_0000

  lemma TopPower()
    ensures IsPowerOfTwo(TWO_31)
  {
    assert Pow(2, 8) == 256;
    PowAdd(2, 8, 8);
    assert Pow(2, 7) == 128;
    PowAdd(2, 8, 7);
    PowAdd(2, 16, 15);
    assert TWO_31 == Pow(2, 31);
  }

  lemma NextPowerFitsU32(n: u32)
    ensures DoubleUntil(n, 1) <= U32_MAX <==> n <= TWO_31
  {
    TopPower();
    NextPowerIsLeast(n);
    if n > TWO_31 {
      var r := DoubleUntil(n, 1);
      var j: nat :| TWO_31 == Pow(2, j);
      var k: nat :| r == Pow(2, k);
      PowersApart(j, k);
      PowersApart(k, j);
    }
  }

  // ----- The period -----

  /** From 2 to 2^31 the computed period is the largest power of two strictly below the block hash
      count; outside that range it is the fixed 0 or 2. */
  lemma PeriodIsLargestPowerBelow(blockHashCount: u32)
    ensures 2 <= blockHashCount <= TWO_31 ==>
              IsLargestPowerBelow(BenchmarkPeriod(blockHashCount), blockHashCount)
    ensures blockHashCount < 2 ==> BenchmarkPeriod(blockHashCount) == 0
    ensures blockHashCount > TWO_31 ==> BenchmarkPeriod(blockHashCount) == 2
  {
    NextPowerFitsU32(blockHashCount);
    if blockHashCount >= 2 {
      HalfIsLargestBelow(blockHashCount);
    }
  }

  lemma NextPowerOfPower(p: nat)
    requires IsPowerOfTwo(p)
    ensures DoubleUntil(p, 1) == p
  {
    NextPowerIsLeast(p);
  }

  /** The era's rounding leaves the computed period alone and only clamps it. */
  lemma EraPeriod(blockHashCount: u32)
    ensures BenchmarkPeriod(blockHashCount) < TWO_64
    ensures EffectivePeriod(BenchmarkPeriod(blockHashCount)) == Clamp(BenchmarkPeriod(blockHashCount), 4, 0x1_0000)
  {
    var period := BenchmarkPeriod(blockHashCount);
    PeriodIsLargestPowerBelow(blockHashCount);
    if blockHashCount >= 2 {
      assert Pow(2, 1) == 2;
      NextPowerOfPower(period);
    }
  }

  lemma FactorDivides(f: nat)
    requires f > 0
    ensures QuantizeFactor(0x1000 * f) == f && 0x1000 * f % f == 0
  {
    DivModUnique(0x1000, f, 0);
    DivModUnique(f, 0x1000, 0);
  }

  lemma SmallPeriodFactor(period: nat)
    requires period < 0x2000
    ensures QuantizeFactor(period) == 1
  {
  }

  lemma SmallPowers()
    ensures IsPowerOfTwo(1) && IsPowerOfTwo(4) && IsPowerOfTwo(0x1_0000)
    ensures Pow(2, 12) == 0x1000
  {
    OneIsPowerOfTwo();
    assert Pow(2, 2) == 4;
    assert Pow(2, 8) == 0x100;
    PowAdd(2, 8, 8);
    assert Pow(2, 16) == 0x1_0000;
    PowAdd(2, 8, 4);
  }

  /** The period a mortal era gets, for every requested one: the least power of two at or above it, but at
      least 4 and at most 65536. */
  lemma EffectivePeriodExactly(period: u64)
    ensures var effective := EffectivePeriod(period);
            && IsPowerOfTwo(effective)
            && (period <= 4 ==> effective == 4)
            && (period >= 0x1_0000 ==> effective == 0x1_0000)
            && (4 <= period <= 0x1_0000 ==>
                  effective >= period && forall q: nat | IsPowerOfTwo(q) && q >= period :: effective <= q)
  {
    hide DoubleUntil;
    NextPowerIsLeast(period);
    SmallPowers();
  }

  /** The quantise factor is the least power of two that makes every phase of the period fit in 12 bits. */
  lemma QuantizeFactorIsLeast(period: nat)
    requires IsPowerOfTwo(period)
    ensures var factor := QuantizeFactor(period);
            && IsPowerOfTwo(factor)
            && (forall phase: nat | phase < period :: phase / factor < 0x1000)
            && (forall q: nat | IsPowerOfTwo(q) && period <= 0x1000 * q :: factor <= q)
  {
    SmallPowers();
    var factor := QuantizeFactor(period);
    var k: nat :| period == Pow(2, k);
    PowersApart(k, 12);
    if k < 12 {
      SmallPeriodFactor(period);
    } else {
      PowAdd(2, 12, k - 12);
      FactorDivides(Pow(2, k - 12));
    }
    forall phase: nat | phase < period ensures phase / factor < 0x1000 {
      DivMod(phase, factor);
      MulMonotone(factor, 0x1000, phase / factor);
    }
    forall q: nat | IsPowerOfTwo(q) && period <= 0x1000 * q ensures factor <= q {
      var j: nat :| q == Pow(2, j);
    }
  }

  lemma ClampedIsMultiple(p: nat)
    requires p == 0 || IsPowerOfTwo(p)
    ensures Clamp(p, 4, 0x1_0000) % QuantizeFactor(Clamp(p, 4, 0x1_0000)) == 0
  {
    hide QuantizeFactor;
    if 0x1000 < p < 0x1_0000 {
      var k: nat :| p == Pow(2, k);
      assert Pow(2, 12) == 0x1000;
      PowersApart(k, 12);
      PowAdd(2, 12, k - 12);
      FactorDivides(Pow(2, k - 12));
    } else if p <= 0x1000 {
      SmallPeriodFactor(Clamp(p, 4, 0x1_0000));
    } else {
      FactorDivides(16);
    }
  }

  // ----- The signed block -----

  lemma MultipleIsLarger(period: nat, factor: nat)
    requires period > 0 && factor > 0 && period % factor == 0
    ensures factor <= period
    ensures factor * (period / factor) == period
  {
    DivMod(period, factor);
    MulMonotone(factor, 1, period / factor);
  }

  lemma SplitTwice(x: nat, factor: nat, c: nat, k: nat, q: nat, r: nat)
    requires r < factor
    requires x == r + factor * q + factor * c * k
    ensures x % factor == r
  {
    Regroup(factor, c, k);
    Distribute(factor, q, c * k);
    DivModUnique(factor, q + c * k, r);
  }

  /** Taking the remainder by a period and then by a divisor of it. */
  lemma RemainderOfRemainder(best: nat, period: nat, factor: nat)
    requires period > 0 && factor > 0 && period % factor == 0
    ensures best % period % factor == best % factor
  {
    var m := best % period;
    DivMod(best, period);
    DivMod(m, factor);
    MultipleIsLarger(period, factor);
    SplitTwice(best, factor, period / factor, best / period, m / factor, m % factor);
  }

  /** A block number splits into whole periods, the quantised phase, and what quantising drops. */
  lemma BirthArithmetic(best: nat, period: nat, factor: nat)
    requires period > 0 && factor > 0 && period % factor == 0
    ensures var phase := Quantize(best % period, factor);
            && phase < period && phase <= best
            && (best - phase) / period * period + phase == best - best % factor
  {
    hide Quantize;
    var k, m := best / period, best % period;
    var phase := Quantize(m, factor);
    DivMod(best, period);
    Regroup(1, period, k);
    MultipleIsLarger(period, factor);
    MulMonotone(period, 0, k);
    DivModUnique(period, k, m % factor);
    assert best - phase == m % factor + period * k;
    RemainderOfRemainder(best, period, factor);
  }

  lemma BenchmarkEraShape(blockHashCount: u32, best: u32)
    ensures var era, period := BenchmarkEra(blockHashCount, best), Clamp(BenchmarkPeriod(blockHashCount), 4, 0x1_0000);
            && era.period == period
            && period % QuantizeFactor(period) == 0
            && era.phase == Quantize(best % period, QuantizeFactor(period))
  {
    hide Quantize, QuantizeFactor;
    EraPeriod(blockHashCount);
    PeriodIsLargestPowerBelow(blockHashCount);
    assert Pow(2, 1) == 2;
    ClampedIsMultiple(BenchmarkPeriod(blockHashCount));
  }

  /** For every block hash count and every best block, the era's birth block is the best block
      rounded down to a multiple of the quantise factor. So signing with the best block's hash is
      right exactly when the best block is such a multiple. */
  lemma BirthIsQuantizedBest(blockHashCount: u32, best: u32)
    ensures var era := BenchmarkEra(blockHashCount, best);
            var factor := QuantizeFactor(era.period);
            && era.Valid() && era.phase <= best
            && era.phase % factor == 0 && era.period % factor == 0
            && era.Birth(best) == best - best % factor
            && (era.Birth(best) == best <==> best % factor == 0)
  {
    hide Quantize, QuantizeFactor, BenchmarkEra;
    var era := BenchmarkEra(blockHashCount, best);
    BenchmarkEraShape(blockHashCount, best);
    BirthArithmetic(best, era.period, QuantizeFactor(era.period));
  }

  lemma EightThousandPower()
    ensures IsPowerOfTwo(0x2000)
  {
    assert Pow(2, 6) == 64;
    PowAdd(2, 6, 7);
    assert Pow(2, 13) == 0x2000;
  }

  /** Quantising is without effect exactly for counts up to 8192, and past 2^31, at every best block. */
  lemma QuantizeFactorIsOne(blockHashCount: u32, best: u32)
    ensures QuantizeFactor(BenchmarkEra(blockHashCount, best).period) == 1
       <==> blockHashCount <= 0x2000 || blockHashCount > TWO_31
  {
    BenchmarkEraShape(blockHashCount, best);
    PeriodIsLargestPowerBelow(blockHashCount);
    EightThousandPower();
    if 0x2000 < blockHashCount <= TWO_31 {
      assert BenchmarkPeriod(blockHashCount) >= 0x2000;
    }
    if 2 <= blockHashCount <= 0x2000 {
      var period := BenchmarkPeriod(blockHashCount);
      var j: nat :| period == Pow(2, j);
      var k: nat :| 0x2000 == Pow(2, k);
      PowersApart(j, k);
      PowersApart(k, j);
    }
  }

  /** The best block is the one whose hash the era stands for. */
  ghost predicate SignsBirthBlock(blockHashCount: u32, best: u32) {
    var era := BenchmarkEra(blockHashCount, best);
    era.Valid() && era.Birth(best) == best
  }

  /** For every count above 8192 and up to 2^31, at best block 1 the era is born at block 0, whose hash
      is not the one signed. */
  lemma LargeCountSignsWrongBlock(blockHashCount: u32)
    requires 0x2000 < blockHashCount <= TWO_31
    ensures BenchmarkEra(blockHashCount, 1).Valid() && BenchmarkEra(blockHashCount, 1).Birth(1) == 0
  {
    hide BenchmarkEra, QuantizeFactor, MortalEra.Birth;
    QuantizeFactorIsOne(blockHashCount, 1);
    BirthIsQuantizedBest(blockHashCount, 1);
  }

  /** Signing with the best block's hash is right at every best block exactly for counts up to 8192, and
      past 2^31. In any case it is right exactly at the multiples of the quantise factor. */
  lemma SignsBirthBlockExactly(blockHashCount: u32)
    ensures (forall best: u32 :: SignsBirthBlock(blockHashCount, best))
       <==> blockHashCount <= 0x2000 || blockHashCount > TWO_31
    ensures forall best: u32 :: SignsBirthBlock(blockHashCount, best) <==>
              best % QuantizeFactor(BenchmarkEra(blockHashCount, best).period) == 0
  {
    hide BenchmarkEra, QuantizeFactor, MortalEra.Birth;
    forall best: u32
      ensures SignsBirthBlock(blockHashCount, best) <==>
              best % QuantizeFactor(BenchmarkEra(blockHashCount, best).period) == 0
      ensures blockHashCount <= 0x2000 || blockHashCount > TWO_31 ==> SignsBirthBlock(blockHashCount, best)
    {
      BirthIsQuantizedBest(blockHashCount, best);
      QuantizeFactorIsOne(blockHashCount, best);
    }
    if 0x2000 < blockHashCount <= TWO_31 {
      LargeCountSignsWrongBlock(blockHashCount);
      assert !SignsBirthBlock(blockHashCount, 1);
    }
  }

  lemma WholePeriods(p: nat, k: nat, q: nat, r: nat)
    requires r < p
    requires r + p * q >= p * k
    ensures p * q == p * k <==> r + p * q < p * k + p
  {
    MulMonotone(p, q + 1, k);
    MulMonotone(p, k + 1, q);
    Distribute(p, q, 1);
    Distribute(p, k, 1);
  }

  /** A birth block is the era's phase and a number of whole periods. */
  lemma BirthPeriods(era: MortalEra, current: nat) returns (periods: nat, rest: nat)
    requires era.Valid()
    ensures rest < era.period
    ensures era.Birth(current) == era.period * periods + era.phase
    ensures (if current > era.phase then current - era.phase else 0) == rest + era.period * periods
  {
    var x := if current > era.phase then current - era.phase else 0;
    periods, rest := x / era.period, x % era.period;
    DivMod(x, era.period);
    Regroup(1, era.period, periods);
  }

  /** The birth block of any era, seen from any block: the latest block up to there that lies at the
      era's phase, or the first one at the phase if it is still to come. */
  lemma BirthExactly(era: MortalEra, current: nat)
    requires era.Valid()
    ensures era.Birth(current) % era.period == era.phase
    ensures current >= era.phase ==> era.Birth(current) <= current < era.Birth(current) + era.period
    ensures current < era.phase ==> era.Birth(current) == era.phase
  {
    hide MortalEra.Birth;
    var periods, rest := BirthPeriods(era, current);
    DivModUnique(era.period, periods, era.phase);
    if current < era.phase {
      MulMonotone(era.period, 1, periods);
    }
  }

  /** An era ends exactly when the birth block seen changes: from any block on, later ones see the same
      birth until the death and another one from then on. */
  lemma DeathExactly(era: MortalEra, earlier: nat, later: nat)
    requires era.Valid() && earlier <= later
    ensures later < era.Death(earlier) <==> era.Birth(later) == era.Birth(earlier)
  {
    hide MortalEra.Birth;
    var k, r := BirthPeriods(era, earlier);
    var q, t := BirthPeriods(era, later);
    WholePeriods(era.period, k, q, t);
  }

  lemma BirthFrom(era: MortalEra, best: nat, current: nat)
    requires era.Valid() && era.phase <= best <= current
    requires era.Birth(best) == best
    ensures era.Birth(current) == best <==> current < best + era.period
  {
    hide MortalEra.Birth;
    DeathExactly(era, best, current);
  }

  lemma SumOfMultiples(factor: nat, a: nat, b: nat, q: nat)
    requires factor > 0 && a % factor == 0 && b % factor == 0
    ensures (q * a + b) % factor == 0
  {
    var c, x := a / factor, b / factor;
    DivMod(a, factor);
    DivMod(b, factor);
    Regroup(q, factor, c);
    Distribute(factor, q * c, x);
    DivModUnique(factor, q * c + x, 0);
  }

  /** Births are multiples of the quantise factor. */
  lemma BirthIsMultiple(era: MortalEra, factor: nat, current: nat)
    requires era.Valid() && factor > 0
    requires era.period % factor == 0 && era.phase % factor == 0
    ensures era.Birth(current) % factor == 0
  {
    var x := (if current > era.phase then current else era.phase) - era.phase;
    SumOfMultiples(factor, era.period, era.phase, x / era.period);
  }

  /** The runtime recomputes the birth block when the extrinsic is included at `current`, from the
      best block on. It finds the block whose hash was signed exactly when the best block is a
      multiple of the quantise factor and the era still lasts. */
  lemma RuntimeAgreesWithSigner(blockHashCount: u32, best: u32, current: nat)
    requires best <= current
    ensures var era := BenchmarkEra(blockHashCount, best);
            && era.Valid()
            && (era.Birth(current) == best <==>
                  best % QuantizeFactor(era.period) == 0 && current < best + era.period)
            && (current < era.Death(best) <==> era.Birth(current) == era.Birth(best))
  {
    hide QuantizeFactor, BenchmarkEra, MortalEra.Birth;
    var era := BenchmarkEra(blockHashCount, best);
    BirthIsQuantizedBest(blockHashCount, best);
    DeathExactly(era, best, current);
    if best % QuantizeFactor(era.period) == 0 {
      BirthFrom(era, best, current);
    } else {
      BirthIsMultiple(era, QuantizeFactor(era.period), current);
    }
  }

  // ----- The window of kept hashes -----

  /** The window assumed of the runtime library: block `current` can look up at least the hashes of the
      `count` blocks before it. */
  predicate HashKept(count: nat, block: nat, current: nat) {
    block < current <= block + count
  }

  /** How the era's lifetime compares with the window: the era is no longer than the count exactly for
      counts of at least 4. For counts of at least 3 every block that can include the extrinsic still
      knows the birth block's hash, and for smaller ones the assumed window does not promise it. */
  lemma EraFitsHashWindow(blockHashCount: u32, best: u32)
    ensures var era := BenchmarkEra(blockHashCount, best);
            && era.Valid()
            && (era.Death(best) <= era.Birth(best) + blockHashCount <==> blockHashCount >= 4)
            && ((forall n: nat | best < n < era.Death(best) :: HashKept(blockHashCount, era.Birth(best), n))
                <==> blockHashCount >= 3)
  {
    var era := BenchmarkEra(blockHashCount, best);
    BirthIsQuantizedBest(blockHashCount, best);
    BenchmarkEraShape(blockHashCount, best);
    PeriodIsLargestPowerBelow(blockHashCount);
    if blockHashCount < 3 {
      assert era.period == 4;
      assert !HashKept(blockHashCount, era.Birth(best), best + 3);
    }
  }

  /** The runtime's own count: the period is 2048, and the signed hash is that of the era's birth. */
  lemma RuntimeCount(best: u32)
    ensures var era := BenchmarkEra(BLOCK_HASH_COUNT, best);
            && BLOCK_HASH_COUNT == 2400
            && era.Valid() && era.period == 2048 && era.Birth(best) == best
  {
    BirthIsQuantizedBest(BLOCK_HASH_COUNT, best);
    BenchmarkEraShape(BLOCK_HASH_COUNT, best);
    PeriodIsLargestPowerBelow(BLOCK_HASH_COUNT);
    assert Pow(2, 11) == 2048;
    var k: nat :| BenchmarkPeriod(BLOCK_HASH_COUNT) == Pow(2, k);
    PowersApart(11, k);
    PowersApart(k, 11);
    assert Pow(2, 12) == 2 * Pow(2, 11);
  }
}
