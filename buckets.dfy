/**
 The arithmetic of one token bucket, as values: creating or refreshing a
 bucket from its rule, refilling it for elapsed time and spending a token.

 Fixed point: the clock counts nanoseconds (the resolution of the source's
 clock), and token amounts are counted in units of 1/Unit of a token, with
 Unit = 3600 * 10^9. A ceiling of `rph` requests per hour refills rph/3600
 tokens per second, which is exactly `rph` units per nanosecond, so the
 source's `delta * rate` becomes the integer product `elapsed * rph`.
 */
module TokenBuckets {

  const NanosPerSecond: int := 1_000_000_000
  const SecondsPerHour: int := 3600

  /** One whole token, in fixed-point units. */
  const Unit: int := SecondsPerHour * NanosPerSecond

  datatype Option<T> = None | Some(value: T)

  /**
   The four fields of a bucket: `tokens` and `capacity` in fixed-point units,
   `lastUpdate` in nanoseconds, `rate` in units per nanosecond.
   */
  datatype BucketState = BucketState(tokens: int, lastUpdate: int, capacity: int, rate: int)

  /** The answer to one request and the bucket it leaves behind. */
  datatype Verdict = Verdict(allowed: bool, bucket: BucketState)

  /**
   The bucket a check starts from: a full one on first use, otherwise the
   existing one with capacity and rate reset from the current ceiling.
   */
  function Provision(prior: Option<BucketState>, rph: int, now: int): (b: BucketState)
    ensures b.capacity == rph * Unit && b.rate == rph
    ensures prior.None? ==> b.tokens == b.capacity && b.lastUpdate == now
    ensures prior.Some? ==> b.tokens == prior.value.tokens && b.lastUpdate == prior.value.lastUpdate
  {
    match prior
    case None => BucketState(rph * Unit, now, rph * Unit, rph)
    case Some(b) => b.(capacity := rph * Unit, rate := rph)
  }

  /** Adds the tokens accrued since `lastUpdate`, capped at capacity, and restamps the bucket. */
  function Refill(b: BucketState, now: int): (r: BucketState)
    ensures r.capacity == b.capacity && r.rate == b.rate && r.lastUpdate == now
    ensures r.tokens <= b.capacity
    ensures now == b.lastUpdate ==> r.tokens == Min(b.capacity, b.tokens)
  {
    var accrued := b.tokens + (now - b.lastUpdate) * b.rate;
    b.(tokens := if accrued > b.capacity then b.capacity else accrued, lastUpdate := now)
  }

  /** Spends one token if a whole token is available. */
  function Consume(b: BucketState): (v: Verdict)
    ensures v.allowed <==> b.tokens >= Unit
    ensures v.bucket.tokens == b.tokens - (if v.allowed then Unit else 0)
    ensures v.bucket.lastUpdate == b.lastUpdate && v.bucket.capacity == b.capacity && v.bucket.rate == b.rate
    ensures 0 <= b.tokens ==> 0 <= v.bucket.tokens
  {
    if b.tokens >= Unit then Verdict(true, b.(tokens := b.tokens - Unit)) else Verdict(false, b)
  }

  /** One admission check against a key whose rule allows `rph` requests per hour. */
  function Admit(prior: Option<BucketState>, rph: int, now: int): (v: Verdict)
    ensures v.bucket.capacity == rph * Unit && v.bucket.rate == rph && v.bucket.lastUpdate == now
    ensures v.bucket.tokens <= v.bucket.capacity
  {
    Consume(Refill(Provision(prior, rph, now), now))
  }

  function Min(a: int, b: int): int {
    if a <= b then a else b
  }

  /** The first check on a key finds a full bucket, is allowed and leaves rph - 1 tokens. */
  lemma AdmitFirstUse(rph: int, now: int)
    requires rph > 0
    ensures Admit(None, rph, now) == Verdict(true, BucketState((rph - 1) * Unit, now, rph * Unit, rph))
  {
  }

  /**
   Every check on an existing bucket resets capacity and rate from the
   current ceiling, refills for the elapsed time, and leaves the bucket
   stamped with `now`; whether it spends a token depends only on the
   refilled amount.
   */
  lemma AdmitExisting(b: BucketState, rph: int, now: int)
    ensures var v := Admit(Some(b), rph, now);
            var refilled := Min(rph * Unit, b.tokens + (now - b.lastUpdate) * rph);
            && v.bucket.capacity == rph * Unit
            && v.bucket.rate == rph
            && v.bucket.lastUpdate == now
            && (v.allowed <==> refilled >= Unit)
            && v.bucket.tokens == (if v.allowed then refilled - Unit else refilled)
  {
  }

  /**
   With the clock not running backwards and no debt of tokens, a check
   leaves the bucket's tokens between zero and its capacity.
   */
  lemma AdmitKeepsTokensInRange(prior: Option<BucketState>, rph: int, now: int)
    requires rph > 0
    requires prior.Some? ==> 0 <= prior.value.tokens && prior.value.lastUpdate <= now
    ensures var v := Admit(prior, rph, now);
            0 <= v.bucket.tokens <= v.bucket.capacity == rph * Unit
  {
    if prior.Some? {
      var b := prior.value;
      NonNegativeProduct(now - b.lastUpdate, rph);
    }
  }

  lemma NonNegativeProduct(x: int, y: int)
    requires 0 <= x && 0 <= y
    ensures 0 <= x * y
  {
  }

  /** Refilling twice is refilling once for the whole interval. */
  lemma RefillComposes(b: BucketState, t1: int, t2: int)
    requires t1 <= t2 && 0 <= b.rate
    ensures Refill(Refill(b, t1), t2) == Refill(b, t2)
  {
    var first := (t1 - b.lastUpdate) * b.rate;
    var second := (t2 - t1) * b.rate;
    assert first + second == (t2 - b.lastUpdate) * b.rate by {
      assert (t1 - b.lastUpdate) + (t2 - t1) == t2 - b.lastUpdate;
    }
    NonNegativeProduct(t2 - t1, b.rate);
  }

  /**
   A denied check costs no recovery: after a check at t1 that is denied, a
   check at t2 decides and leaves exactly what a check at t2 alone would.
   */
  lemma DeniedCheckIsFree(b: BucketState, rph: int, t1: int, t2: int)
    requires 0 <= rph && t1 <= t2
    requires !Admit(Some(b), rph, t1).allowed
    ensures Admit(Some(Admit(Some(b), rph, t1).bucket), rph, t2) == Admit(Some(b), rph, t2)
  {
    RefillComposes(Provision(Some(b), rph, t1), t1, t2);
  }

  /** Refilling at a later instant yields at least as many tokens as refilling earlier. */
  lemma RefillMonotone(b: BucketState, t1: int, t2: int)
    requires t1 <= t2 && 0 <= b.rate
    ensures Refill(b, t1).tokens <= Refill(b, t2).tokens
  {
    assert (t2 - b.lastUpdate) * b.rate == (t1 - b.lastUpdate) * b.rate + (t2 - t1) * b.rate;
    NonNegativeProduct(t2 - t1, b.rate);
  }

  /** The answers to `n` consecutive checks at the same instant, starting from `prior`. */
  function Checks(prior: Option<BucketState>, rph: int, now: int, n: nat): (d: seq<bool>)
    ensures |d| == n
    decreases n
  {
    if n == 0 then []
    else
      var v := Admit(prior, rph, now);
      [v.allowed] + Checks(Some(v.bucket), rph, now, n - 1)
  }

  /** From a bucket holding exactly k tokens and no elapsed time, k checks pass and the next fails. */
  lemma {:induction false} ExhaustFrom(b: BucketState, rph: int, now: int, k: nat)
    requires b == BucketState(k * Unit, now, rph * Unit, rph)
    requires k <= rph
    ensures var d := Checks(Some(b), rph, now, k + 1);
            (forall i :: 0 <= i < k ==> d[i]) && !d[k]
    decreases k
  {
    var v := Admit(Some(b), rph, now);
    if k > 0 {
      assert v == Verdict(true, BucketState((k - 1) * Unit, now, rph * Unit, rph));
      ExhaustFrom(v.bucket, rph, now, k - 1);
    } else {
      assert !v.allowed;
    }
  }

  /**
   Burst then exhaust: with a ceiling of N and no time elapsing, the first N
   checks on a fresh key are allowed and check N + 1 is denied.
   */
  lemma BurstThenExhaust(rph: nat, now: int)
    requires rph > 0
    ensures var d := Checks(None, rph, now, rph + 1);
            (forall i :: 0 <= i < rph ==> d[i]) && !d[rph]
  {
    var v := Admit(None, rph, now);
    AdmitFirstUse(rph, now);
    ExhaustFrom(v.bucket, rph, now, rph - 1);
  }

  /**
   Linear refill: at 3600 requests per hour, a bucket holding less than a
   token recovers exactly one more allowed request in one second, not two,
   whatever capacity and rate it held before the check refreshed them.
   */
  lemma OneSecondOneToken(b: BucketState)
    requires 0 <= b.tokens < Unit
    ensures Checks(Some(b), 3600, b.lastUpdate + NanosPerSecond, 2) == [true, false]
  {
    var now := b.lastUpdate + NanosPerSecond;
    assert (now - b.lastUpdate) * 3600 == Unit;
    AdmitExisting(b, 3600, now);
    var v := Admit(Some(b), 3600, now);
    assert v.allowed && v.bucket.tokens == b.tokens;
    AdmitExisting(v.bucket, 3600, now);
    var w := Admit(Some(v.bucket), 3600, now);
    assert !w.allowed;
    assert Checks(Some(v.bucket), 3600, now, 1) == [w.allowed] + Checks(Some(w.bucket), 3600, now, 0);
  }
}
