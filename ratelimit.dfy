/**
 The rate limiter object: the rule table and the bucket store, updated in
 place by `Update` (rebuild the rules, drop orphaned buckets) and by `Check`
 (admit or deny one request).
 */
module RateLimit {
  import opened Rules
  import opened TokenBuckets

  /** The mutable state of one key's bucket; field units as in `BucketState`. */
  class TokenBucket {
    var tokens: int
    var lastUpdate: int
    var capacity: int
    var rate: int

    constructor (tokens: int, lastUpdate: int, capacity: int, rate: int)
      ensures State() == BucketState(tokens, lastUpdate, capacity, rate)
    {
      this.tokens := tokens;
      this.lastUpdate := lastUpdate;
      this.capacity := capacity;
      this.rate := rate;
    }

    /** The bucket's fields as a value. */
    function State(): BucketState
      reads this
    {
      BucketState(tokens, lastUpdate, capacity, rate)
    }

    /** Resets capacity and rate from the current ceiling. */
    method Refresh(rph: int)
      modifies this
      ensures State() == old(State()).(capacity := rph * Unit, rate := rph)
    {
      capacity := rph * Unit;
      rate := rph;
    }

    /** Adds the tokens accrued since the last update, capped at capacity. */
    method Refill(now: int)
      modifies this
      ensures State() == TokenBuckets.Refill(old(State()), now)
    {
      var delta := now - lastUpdate;
      tokens := tokens + delta * rate;
      if tokens > capacity {
        tokens := capacity;
      }
      lastUpdate := now;
    }

    /** Spends one token if a whole token is available, and says whether it did. */
    method Consume() returns (allowed: bool)
      modifies this
      ensures Verdict(allowed, State()) == TokenBuckets.Consume(old(State()))
    {
      if tokens >= Unit {
        tokens := tokens - Unit;
        return true;
      }
      return false;
    }
  }

  class RateLimiter {
    var buckets: map<RuleKey, TokenBucket>
    var rules: map<RuleKey, int>

    /**
     Every ceiling is positive, every bucket belongs to a key that has a
     rule, and no two keys share a bucket object.
     */
    ghost predicate Valid()
      reads this
    {
      && (forall k :: k in rules ==> rules[k] > 0)
      && buckets.Keys <= rules.Keys
      && forall k1, k2 :: k1 in buckets && k2 in buckets && k1 != k2 ==> buckets[k1] != buckets[k2]
    }

    constructor ()
      ensures Valid()
      ensures rules == map[] && buckets == map[]
    {
      buckets := map[];
      rules := map[];
    }

    /**
     Replaces the rule table by the one built from `input`, keeping only the
     rules with a valid API key, a positive ceiling and a known model, then
     drops every bucket whose key lost its rule. Surviving buckets are the
     same objects with the same contents.
     */
    method Update(input: seq<RateLimitRule>, validAPIKeys: seq<string>, knownModel: string -> bool)
      requires Valid()
      modifies this
      ensures Valid()
      ensures rules == RuleTable(input, validAPIKeys, knownModel)
      ensures buckets == map k | k in old(buckets) && k in rules :: old(buckets)[k]
      ensures forall k :: k in buckets ==> buckets[k].State() == old(buckets[k].State())
    {
      var validKeys := KeySet(validAPIKeys);
      var newRules := BuildRules(input, validAPIKeys, validKeys, knownModel);
      rules := newRules;
      RemoveOrphans();
    }

    /** Deletes, in place, every bucket whose key has no rule. */
    method RemoveOrphans()
      requires forall k :: k in rules ==> rules[k] > 0
      requires forall k1, k2 :: k1 in buckets && k2 in buckets && k1 != k2 ==> buckets[k1] != buckets[k2]
      modifies this`buckets
      ensures Valid()
      ensures buckets == map k | k in old(buckets) && k in rules :: old(buckets)[k]
    {
      ghost var before := buckets;
      var pending := buckets.Keys;
      while pending != {}
        invariant pending <= before.Keys
        invariant buckets == map k | k in before && (k in pending || k in rules) :: before[k]
        decreases pending
      {
        var k :| k in pending;
        if k !in rules {
          buckets := buckets - {k};
        }
        pending := pending - {k};
      }
    }

    /**
     Decides one request for (apiKey, model) at time `now`. Without a rule
     the request is allowed and nothing changes; otherwise the key's bucket
     (created full on first use) goes through `Admit` and no other bucket
     changes.
     */
    method Check(apiKey: string, model: string, now: int) returns (allowed: bool)
      requires Valid()
      modifies this, buckets.Values
      ensures Valid()
      ensures rules == old(rules)
      ensures KeyOf(apiKey, model) !in rules ==> allowed && buckets == old(buckets)
      ensures KeyOf(apiKey, model) in rules ==> buckets.Keys == old(buckets).Keys + {KeyOf(apiKey, model)}
      ensures forall k :: k in old(buckets) ==> k in buckets && buckets[k] == old(buckets)[k]
      ensures forall k :: k in buckets && k !in old(buckets) ==> fresh(buckets[k])
      ensures forall k :: k in old(buckets) && k != KeyOf(apiKey, model) ==> buckets[k].State() == old(buckets[k].State())
      ensures KeyOf(apiKey, model) in rules ==>
                var key := KeyOf(apiKey, model);
                var v := Admit(if key in old(buckets) then Some(old(buckets[key].State())) else None, rules[key], now);
                allowed == v.allowed && buckets[key].State() == v.bucket
      ensures KeyOf(apiKey, model) in rules ==>
                var key := KeyOf(apiKey, model);
                (key in old(buckets) ==> 0 <= old(buckets[key].tokens) && old(buckets[key].lastUpdate) <= now) ==>
                  0 <= buckets[key].tokens <= buckets[key].capacity
    {
      var key := KeyOf(apiKey, model);
      if key !in rules {
        return true; // no rule: allowed
      }
      var rph := rules[key];
      ghost var prior := if key in buckets then Some(buckets[key].State()) else None;

      var bucket: TokenBucket;
      if key !in buckets {
        // first use: a full bucket
        bucket := new TokenBucket(rph * Unit, now, rph * Unit, rph);
        buckets := buckets[key := bucket];
      } else {
        bucket := buckets[key];
        bucket.Refresh(rph);
      }
      bucket.Refill(now);
      allowed := bucket.Consume();
      if prior.Some? ==> 0 <= prior.value.tokens && prior.value.lastUpdate <= now {
        AdmitKeepsTokensInRange(prior, rph, now);
      }
    }
  }

  /** The set of valid API keys, built from the configured list. */
  method KeySet(validAPIKeys: seq<string>) returns (validKeys: set<string>)
    ensures forall s :: s in validKeys <==> s in validAPIKeys
  {
    validKeys := {};
    var i := 0;
    while i < |validAPIKeys|
      invariant 0 <= i <= |validAPIKeys|
      invariant forall s :: s in validKeys <==> s in validAPIKeys[..i]
    {
      validKeys := validKeys + {validAPIKeys[i]};
      i := i + 1;
    }
    assert validAPIKeys[..i] == validAPIKeys;
  }

  /**
   Builds the new rule table in one pass over the input, skipping a rule
   with an unknown API key, a non-positive ceiling or an unknown model.
   */
  method BuildRules(input: seq<RateLimitRule>, validAPIKeys: seq<string>, validKeys: set<string>, knownModel: string -> bool)
    returns (newRules: map<RuleKey, int>)
    requires forall s :: s in validKeys <==> s in validAPIKeys
    ensures newRules == RuleTable(input, validAPIKeys, knownModel)
  {
    newRules := map[];
    var j := 0;
    while j < |input|
      invariant 0 <= j <= |input|
      invariant newRules == RuleTable(input[..j], validAPIKeys, knownModel)
    {
      var rule := input[j];
      assert input[..j + 1][..j] == input[..j];
      if rule.apiKey !in validKeys {
        // unknown API key: the rule is skipped
      } else if rule.rph <= 0 {
        // non-positive ceiling: the rule is skipped
      } else if !knownModel(rule.model) {
        // model unknown to the registry: the rule is skipped
      } else {
        newRules := newRules[rule.Key() := rule.rph];
      }
      j := j + 1;
    }
    assert input[..j] == input;
  }
}
