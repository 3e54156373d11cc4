/** Durations in nanoseconds, the scaling of job intervals, and the 64-bit arithmetic they run in. */
module Timing {
  import Arithmetic

  const MILLISECOND: int := 1_000_000
  const SECOND: int := 1_000_000_000
  const DEFAULT_TICK: int := 100 * MILLISECOND
  const DEFAULT_WHEEL_SIZE: nat := 512
  const MAX_INT64: int := 0x7FFF_FFFF_FFFF_FFFF
  const TWO_TO_64: int := 0x1_0000_0000_0000_0000

  /** The part of a job that scheduling looks at. */
  datatype Job = Job(id: int, isCyclic: bool, defaultInterval: int)

  /** Division that rounds toward zero. */
  function TruncDiv(a: int, b: int): int
    requires b > 0
  {
    if a >= 0 then a / b else -((-a) / b)
  }

  /** The quotient lies between zero and the dividend, less than one divisor away from it. */
  lemma TruncDivIs(a: int, b: int)
    requires b > 0
    ensures a >= 0 ==> TruncDiv(a, b) * b <= a < (TruncDiv(a, b) + 1) * b
    ensures a < 0 ==> (TruncDiv(a, b) - 1) * b < a <= TruncDiv(a, b) * b
  {
    var n := if a >= 0 then a else -a;
    var q, r := n / b, n % b;
    assert n == q * b + r && (q + 1) * b == q * b + b && (-q) * b == -(q * b) && (-q - 1) * b == -(q * b) - b;
  }

  lemma TruncDivOfNonNegative(a: int, b: int)
    requires a >= 0 && b > 0
    ensures 0 <= TruncDiv(a, b) <= a
  {
    QuotientBound(a, b);
  }

  /** Delay before the first execution: the interval counts milliseconds here. */
  function FirstDelay(job: Job): int {
    if job.defaultInterval > 0 then job.defaultInterval * MILLISECOND else 10 * SECOND
  }

  /** Delay before every later execution: the same interval counts seconds here. */
  function NextDelay(job: Job): int {
    job.defaultInterval * SECOND
  }

  predicate Repeats(job: Job) {
    job.isCyclic && job.defaultInterval > 0
  }

  /** Timeout of one collection round: 80% of the interval, but never under 30 seconds. */
  function CollectionTimeout(job: Job): int {
    if job.defaultInterval > 0 && TruncDiv(job.defaultInterval * SECOND * 80, 100) > 30 * SECOND
    then TruncDiv(job.defaultInterval * SECOND * 80, 100)
    else 30 * SECOND
  }

  /** Eight tenths of the interval from 38 seconds on, and 30 seconds below. */
  lemma CollectionTimeoutIs(job: Job)
    ensures CollectionTimeout(job) == if job.defaultInterval >= 38 then job.defaultInterval * 800_000_000 else 30_000_000_000
  {
  }

  // ---------------------------------------------------------------- the same computations in 64 bits

  function Wrap64(x: int): int {
    (x + MAX_INT64 + 1) % TWO_TO_64 - MAX_INT64 - 1
  }

  function FirstDelay64(job: Job): int {
    if job.defaultInterval > 0 then Wrap64(job.defaultInterval * MILLISECOND) else 10 * SECOND
  }

  function NextDelay64(job: Job): int {
    Wrap64(job.defaultInterval * SECOND)
  }

  function CollectionTimeout64(job: Job): int {
    var share := TruncDiv(Wrap64(Wrap64(job.defaultInterval * SECOND) * 80), 100);
    if job.defaultInterval > 0 && share > 30 * SECOND then share else 30 * SECOND
  }

  function Target64(tick: int, delay: int, tickDuration: int): int
    requires tickDuration > 0
  {
    Wrap64(tick + TruncDiv(delay, tickDuration))
  }

  const MAX_SAFE_INTERVAL: int := 115_292_150

  /** The 64-bit value is the one in range that differs by a multiple of 2^64. */
  lemma WrapIs(x: int)
    ensures -0x8000_0000_0000_0000 <= Wrap64(x) < 0x8000_0000_0000_0000
    ensures (x - Wrap64(x)) % 0x1_0000_0000_0000_0000 == 0
  {
  }

  lemma WrapIdentity(x: int)
    ensures Wrap64(x) == x <==> -MAX_INT64 - 1 <= x <= MAX_INT64
  {
  }

  /** For positive intervals the product behind the 80% timeout is exact exactly up to 115,292,150 seconds. */
  lemma SafeIntervalIsExact(interval: int)
    requires interval > 0
    ensures Wrap64(Wrap64(interval * SECOND) * 80) == interval * SECOND * 80 <==> interval <= MAX_SAFE_INTERVAL
  {
    WrapIdentity(Wrap64(interval * SECOND) * 80);
    WrapIdentity(interval * SECOND);
  }

  /** Remainder of the division that rounds toward zero; it takes the sign of the dividend. */
  function TruncMod(a: int, b: int): int
    requires b > 0
  {
    if a >= 0 then a % b else -((-a) % b)
  }

  /** The bucket index is valid exactly for targets from tick 0 on and for negative multiples of the wheel size. */
  lemma BucketIndexValidIff(target: int, size: nat)
    requires size > 0
    ensures 0 <= TruncMod(target, size) < size <==> target >= 0 || target % size == 0
    ensures target >= 0 || target % size == 0 ==> TruncMod(target, size) == target % size
  {
    NegatedRemainder(target, size);
  }

  lemma NegatedRemainder(a: int, b: int)
    requires b > 0
    ensures (-a) % b == 0 <==> a % b == 0
  {
    Arithmetic.SameResidue(b, 0, a);
    Arithmetic.ModuloUnique(b, 0, 0, 0);
  }

  /** Up to that bound every 64-bit delay, timeout and target equals its unbounded value. */
  lemma TimingPathIsExact(job: Job, tick: int, tickDuration: int)
    requires 1 <= job.defaultInterval <= MAX_SAFE_INTERVAL && 0 <= tick < 0x4000_0000_0000_0000 && tickDuration > 0
    ensures FirstDelay64(job) == FirstDelay(job) && NextDelay64(job) == NextDelay(job)
    ensures CollectionTimeout64(job) == CollectionTimeout(job)
    ensures Target64(tick, FirstDelay64(job), tickDuration) == tick + TruncDiv(FirstDelay(job), tickDuration)
    ensures Target64(tick, NextDelay64(job), tickDuration) == tick + TruncDiv(NextDelay(job), tickDuration)
    ensures Target64(tick, FirstDelay64(job), tickDuration) >= tick && Target64(tick, NextDelay64(job), tickDuration) >= tick
  {
    SafeIntervalIsExact(job.defaultInterval);
    WrapIdentity(job.defaultInterval * MILLISECOND);
    WrapIdentity(job.defaultInterval * SECOND);
    QuotientBound(FirstDelay(job), tickDuration);
    QuotientBound(NextDelay(job), tickDuration);
    WrapIdentity(tick + FirstDelay(job) / tickDuration);
    WrapIdentity(tick + NextDelay(job) / tickDuration);
  }

  lemma QuotientBound(a: int, b: int)
    requires a >= 0 && b > 0
    ensures 0 <= a / b <= a
  {
    SplitBound(a, b, a / b, a % b);
  }

  lemma SplitBound(a: int, b: int, q: int, r: int)
    requires a >= 0 && a == q * b + r && 0 <= r < b
    ensures 0 <= q <= a
  {
    if q >= 0 {
      assert q * (b - 1) >= 0;
    }
  }

  /** A collection round is given less time than the gap to the next one exactly when the interval exceeds 30 seconds. */
  lemma TimeoutBelowGap(job: Job)
    requires 1 <= job.defaultInterval <= MAX_SAFE_INTERVAL
    ensures CollectionTimeout64(job) < NextDelay64(job) <==> job.defaultInterval > 30
  {
    TimingPathIsExact(job, 0, 1);
  }
}
