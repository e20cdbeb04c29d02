# Token-bucket rate limiter

A Dafny model of the request-admission gate in `internal/ratelimit/ratelimit.go`.
`RateLimiter` holds two maps, both keyed by an (API key, model) pair:

- a rule table, giving each key a ceiling in requests per hour (RPH);
- a bucket store, giving each key a token bucket.

`Update` rebuilds the rule table from configured rules. It drops a rule whose API key is not valid, whose RPH is not positive, or whose model the model registry does not know. A later rule for the same key replaces an earlier one. `Update` then deletes every bucket whose key lost its rule.

`Check` decides one request. A key without a rule is always allowed. Otherwise the key's bucket is created full on first use, or has its capacity and rate reset from the current rule. The bucket is then refilled for the elapsed time, capped at capacity. The request is allowed, and one token spent, when at least one whole token is available.

Files:

- `rules.dfy` (module `Rules`): the rule datatype, the tuple key, the rule table as a specification function (`RuleTable`) and lemmas about it, and the source's `"|"`-joined string key.
- `buckets.dfy` (module `TokenBuckets`): one bucket's arithmetic as values. `Provision` creates or refreshes a bucket, `Refill` adds accrued tokens, `Consume` spends a token, and `Admit` composes the three. Lemmas state the admission properties.
- `ratelimit.dfy` (module `RateLimit`): the imperative model. Class `TokenBucket` is updated field by field as the source does. Class `RateLimiter` holds `rules: map<RuleKey, int>` and `buckets: map<RuleKey, TokenBucket>`, with `Update` and `Check` as methods whose contracts tie them to `RuleTable` and `Admit`. `Valid()` is the object invariant: every ceiling is positive, every bucket's key has a rule, and no two keys share a bucket object.
- `scenarios.dfy` (module `Scenarios`): client methods that derive concrete limiter behaviour from the contracts alone. They cover filtering, burst then deny, default-open, refill after an hour, a bucket surviving an unchanged rule, and cleanup then restart with a full bucket.

Numbers are exact integers:

- The clock is an `int` of nanoseconds, passed to `Check` as `now` in place of `time.Now()`.
- Token amounts are counted in units of 1/`Unit` of a token, with `Unit` = 3600 · 10⁹.
- A ceiling of `rph` then refills exactly `rph` units per nanosecond. The bucket's `rate` field holds `rph`, and the source's `delta * rate` becomes the integer `(now - lastUpdate) * rph`.

The model registry lookup is a parameter `knownModel: string -> bool` of `Update`.

Where the documentation and the code differ, the model follows the code:

- A bucket's capacity and rate are not changed by `Update`. They are reset from the rule at the key's next `Check` (ratelimit.go lines 99-103). Until then, a bucket may hold more tokens than its new ceiling.
- The bounds 0 ≤ tokens ≤ capacity hold only while the clock does not run backwards, so `AdmitKeepsTokensInRange` assumes `lastUpdate <= now`. The code caps tokens from above but never from below.

## Model

In the tables, SEP stands for the separator character of the source's string key, the vertical bar.

| member | source | states |
|---|---|---|
| `Rules.KeyOf` | internal/ratelimit/ratelimit.go:62 | the key a rule and a bucket are filed under: the (API key, model) pair itself, in place of the joined string |
| `Rules.Accepted` | internal/ratelimit/ratelimit.go:47-60 | a rule is kept exactly when its API key is valid, its RPH is positive and the registry knows its model; each failing test is one of the three skips |
| `Rules.RuleTable` | internal/ratelimit/ratelimit.go:44-64 | the rule table built from the input in order; every ceiling it stores is positive |
| `Rules.RuleTableDomain` | internal/ratelimit/ratelimit.go:46-63 | a key has a rule exactly when some input rule with that key has a valid API key, a positive RPH and a known model |
| `Rules.RuleTableLastWins` | internal/ratelimit/ratelimit.go:62-63 | the ceiling stored under a key is the RPH of the last accepted input rule with that key |
| `Rules.KeyOfInjective` | internal/ratelimit/ratelimit.go:22-23 | the tuple key identifies the (API key, model) pair: equal keys iff equal pairs |
| `Rules.JoinKey` | internal/ratelimit/ratelimit.go:62 | the source's string key: its length is the two lengths plus one, and the separator sits right after the API key |
| `Rules.JoinKeyCollides` | internal/ratelimit/ratelimit.go:82 | the pairs (a SEP b, c) and (a, b SEP c) differ but are filed under the same joined string |
| `Rules.JoinKeyInjective` | internal/ratelimit/ratelimit.go:82 | when no API key contains SEP, equal joined strings iff equal pairs, so the tuple key agrees with the source's key |
| `Rules.JoinKeyCollisionNeedsBoth` | internal/ratelimit/ratelimit.go:82 | two different pairs share a joined string only if one pair's API key and the other pair's model name both contain SEP |
| `RateLimit.KeySet` | internal/ratelimit/ratelimit.go:39-42 | the set built from the list of valid API keys holds exactly the listed keys |
| `RateLimit.BuildRules` | internal/ratelimit/ratelimit.go:44-64 | the loop that skips invalid rules builds exactly `RuleTable` of the input |
| `RateLimit.RateLimiter.constructor` | internal/ratelimit/ratelimit.go:27-32 | a new limiter has no rules and no buckets and satisfies the invariant |
| `RateLimit.RateLimiter.Update` | internal/ratelimit/ratelimit.go:35-75 | the rules are replaced wholesale by `RuleTable` of the input; the buckets become the old buckets restricted to keys that still have a rule, as the same objects with unchanged contents; no bucket is added; the invariant is kept |
| `RateLimit.RateLimiter.RemoveOrphans` | internal/ratelimit/ratelimit.go:68-73 | deleting buckets in place while iterating leaves exactly the buckets whose key has a rule |
| `RateLimit.RateLimiter.Check` | internal/ratelimit/ratelimit.go:78-119 | without a rule: allowed, and neither map changes; with a rule: the answer and the key's new bucket are `Admit` of its old bucket (or none) under the current RPH; the rules, the other buckets and every existing bucket object are unchanged; a first-use bucket is fresh; tokens end in [0, capacity] when they were not negative and `now` is not before `lastUpdate` |
| `RateLimit.TokenBucket.constructor` | internal/ratelimit/ratelimit.go:92-97 | a new bucket holds exactly the four given fields |
| `RateLimit.TokenBucket.Refresh` | internal/ratelimit/ratelimit.go:99-103 | capacity and rate are reset from the ceiling; tokens and lastUpdate are untouched |
| `RateLimit.TokenBucket.Refill` | internal/ratelimit/ratelimit.go:105-111 | the in-place refill yields exactly `Refill` of the old fields |
| `RateLimit.TokenBucket.Consume` | internal/ratelimit/ratelimit.go:113-118 | the in-place decision yields exactly `Consume` of the old fields |
| `TokenBuckets.Provision` | internal/ratelimit/ratelimit.go:90-103 | the bucket a check starts from: capacity and rate always come from the current RPH; on first use it is full and stamped now, otherwise it keeps its tokens and lastUpdate |
| `TokenBuckets.Refill` | internal/ratelimit/ratelimit.go:105-111 | refilling leaves capacity and rate alone, stamps the bucket with now and never leaves more than capacity; with no elapsed time only the cap applies |
| `TokenBuckets.Consume` | internal/ratelimit/ratelimit.go:113-118 | allowed exactly when at least one whole token is available; on allow exactly one token is spent, on deny none; the other fields are kept; a bucket not in debt stays out of debt |
| `TokenBuckets.Admit` | internal/ratelimit/ratelimit.go:88-118 | one check on a key with a rule: the resulting bucket has capacity and rate from the RPH, is stamped now, and holds no more than capacity, whatever the idle time or the old tokens |
| `TokenBuckets.DeniedCheckIsFree` | internal/ratelimit/ratelimit.go:105-118 | a denied check costs no recovery: after a denied check at t1, a check at t2 gives the same answer and bucket as a check at t2 alone |
| `TokenBuckets.AdmitFirstUse` | internal/ratelimit/ratelimit.go:90-98 | the first check with RPH N is allowed and leaves N - 1 tokens, capacity N, rate N/3600 per second, lastUpdate = now |
| `TokenBuckets.AdmitExisting` | internal/ratelimit/ratelimit.go:99-118 | on an existing bucket, capacity and rate are reset from the current RPH; tokens are refilled to min(capacity, tokens + elapsed × rate) and lastUpdate = now; allowed iff the refilled amount is at least one token; on allow exactly one token is spent, on deny the refilled amount stays |
| `TokenBuckets.AdmitKeepsTokensInRange` | internal/ratelimit/ratelimit.go:105-118 | with tokens not negative and the clock not running backwards, a check leaves tokens in [0, capacity] |
| `TokenBuckets.RefillComposes` | internal/ratelimit/ratelimit.go:105-111 | refilling at t1 and then at t2 equals refilling once at t2 |
| `TokenBuckets.RefillMonotone` | internal/ratelimit/ratelimit.go:105-111 | a later refill never yields fewer tokens than an earlier one |
| `TokenBuckets.ExhaustFrom` | internal/ratelimit/ratelimit.go:113-118 | with k whole tokens and no elapsed time, k checks are allowed and the next is denied |
| `TokenBuckets.BurstThenExhaust` | internal/ratelimit/ratelimit.go:90-118 | with RPH N and no elapsed time, the first N checks on a fresh key are allowed and check N + 1 is denied |
| `TokenBuckets.OneSecondOneToken` | internal/ratelimit/ratelimit.go:105-118 | at 3600 RPH, a bucket holding less than one token allows exactly one more request after one second, not two |

## Left out

- Locking: the `sync.Mutex` (ratelimit.go lines 21, 36-37, 79-80) is not modelled. `Update` and `Check` are atomic sequential methods, so "no double-spend under concurrent checks" is not stated.
- Clock: `time.Now()` is the parameter `now`, whole nanoseconds. Go's monotonic clock and the saturation of `Time.Sub` at about ±292 years are not modelled.
- Floating point: tokens, capacity and rate are exact fixed-point integers instead of `float64`. IEEE rounding of `rph / 3600.0`, of `delta * rate` and of each spend is not modelled. Rounding builds up over many refills and spends, so the model can decide differently from the code whenever the amount is near the one-token boundary.
- Integer width: the configured RPH is an unbounded `int`. Go's 64-bit `int` and the exactness of `float64(rph)` above 2^53 are not modelled.
- The model registry `registry.GetGlobalRegistry().GetModelInfo` is the parameter `knownModel` of `Update`.
- Logging (`log.Errorf`, `log.Infof`) is left out because it has no effect on state.
- internal/api/handlers/management/ratelimit.go is not part of this model. It is HTTP glue: JSON binding, the handler's own lock, the configuration callback and persistence. A malformed request body is rejected there, before `Update` is reached.
- `Rules.KeyOf`: rules and buckets are keyed by the (API key, model) tuple, not by the source's SEP-joined string, so the model's `Check` and `Update` differ from the code for pairs that collide under the joined string. Such a collision needs SEP in one pair's API key and in the other pair's model name (`Rules.JoinKeyInjective`, `Rules.JoinKeyCollisionNeedsBoth`); this is the finding below.
- `config.RateLimitRule` decoding is left out; a rule is the datatype `RateLimitRule(apiKey, model, rph)`.

## Findings

| source | as written | input that shows it | evidently intended | confidence | as-written member | corrected member |
|---|---|---|---|---|---|---|
| internal/ratelimit/ratelimit.go:62 | rules and buckets are keyed by the API key, SEP and the model, joined into one string | API key a SEP b with model c, and API key a with model b SEP c: both give a SEP b SEP c, so one pair's rule limits, or overwrites, the other | every distinct (API key, model) pair gets its own rule and bucket | low, not executed (needs two pairs where one has SEP in its API key and the other has SEP in its model name; see `Rules.JoinKeyCollisionNeedsBoth`) | `Rules.JoinKeyCollides` | `Rules.KeyOfInjective` |

The rest of the model uses the tuple key `KeyOf`. `Rules.JoinKeyInjective` shows that the two keys agree whenever no API key contains '|'.
