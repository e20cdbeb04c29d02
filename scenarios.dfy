/**
 Clients of the rate limiter: what a caller can conclude from the contracts
 of `Update` and `Check` alone.
 */
module Scenarios {
  import opened Rules
  import opened TokenBuckets
  import opened RateLimit

  /** Rules with an unknown API key or a zero ceiling are dropped; the last accepted one is kept. */
  method FilteringScenario(knownModel: string -> bool)
    requires knownModel("gpt")
  {
    var rl := new RateLimiter();
    var input := [RateLimitRule("key-a", "gpt", 2), RateLimitRule("stranger", "gpt", 10), RateLimitRule("key-a", "gpt", 0)];
    var keys := ["key-a", "key-b"];
    rl.Update(input, keys, knownModel);
    assert input[..2][..1] == [input[0]] && [input[0]][..0] == [];
    assert input[..2][1].apiKey !in keys by {
      assert "stranger"[0] != "key-a"[0] && "stranger"[0] != "key-b"[0];
    }
    assert RuleTable([input[0]], keys, knownModel) == map[("key-a", "gpt") := 2];
    assert RuleTable(input[..2], keys, knownModel) == map[("key-a", "gpt") := 2];
    assert rl.rules == map[("key-a", "gpt") := 2];
  }

  /** A ceiling of two gives a burst of two and the third check is denied. */
  method BurstScenario(knownModel: string -> bool)
    requires knownModel("gpt")
  {
    var rl := new RateLimiter();
    var key := KeyOf("key-a", "gpt");
    rl.Update([RateLimitRule("key-a", "gpt", 2)], ["key-a"], knownModel);
    assert rl.rules == map[key := 2] && rl.buckets == map[];

    assert Admit(None, 2, 0) == Verdict(true, BucketState(Unit, 0, 2 * Unit, 2));
    var first := rl.Check("key-a", "gpt", 0);
    assert first && rl.buckets[key].State() == BucketState(Unit, 0, 2 * Unit, 2);

    assert Admit(Some(BucketState(Unit, 0, 2 * Unit, 2)), 2, 0) == Verdict(true, BucketState(0, 0, 2 * Unit, 2));
    var second := rl.Check("key-a", "gpt", 0);
    assert second && rl.buckets[key].State() == BucketState(0, 0, 2 * Unit, 2);

    assert Admit(Some(BucketState(0, 0, 2 * Unit, 2)), 2, 0) == Verdict(false, BucketState(0, 0, 2 * Unit, 2));
    var third := rl.Check("key-a", "gpt", 0);
    assert !third;
  }

  /** At one request per hour, an exhausted bucket earns exactly one more request after an hour. */
  method RefillScenario(knownModel: string -> bool)
    requires knownModel("gpt")
  {
    var rl := new RateLimiter();
    var key := KeyOf("key-a", "gpt");
    rl.Update([RateLimitRule("key-a", "gpt", 1)], ["key-a"], knownModel);
    assert rl.rules == map[key := 1] && rl.buckets == map[];

    assert Admit(None, 1, 0) == Verdict(true, BucketState(0, 0, Unit, 1));
    var first := rl.Check("key-a", "gpt", 0);
    assert first && rl.buckets[key].State() == BucketState(0, 0, Unit, 1);
    AfterAnHour(rl);
  }

  /** The second half of `RefillScenario`: one hour (Unit nanoseconds) after the bucket ran dry. */
  method AfterAnHour(rl: RateLimiter)
    requires rl.Valid()
    requires rl.rules == map[KeyOf("key-a", "gpt") := 1]
    requires KeyOf("key-a", "gpt") in rl.buckets
    requires rl.buckets[KeyOf("key-a", "gpt")].State() == BucketState(0, 0, Unit, 1)
    modifies rl, rl.buckets.Values
  {
    var key := KeyOf("key-a", "gpt");
    assert (Unit - 0) * 1 == Unit;
    assert Admit(Some(BucketState(0, 0, Unit, 1)), 1, Unit) == Verdict(true, BucketState(0, Unit, Unit, 1));
    var later := rl.Check("key-a", "gpt", Unit);
    assert later && rl.buckets[key].State() == BucketState(0, Unit, Unit, 1);

    assert Admit(Some(BucketState(0, Unit, Unit, 1)), 1, Unit) == Verdict(false, BucketState(0, Unit, Unit, 1));
    var denied := rl.Check("key-a", "gpt", Unit);
    assert !denied;
  }

  /** A key without a rule is never limited, and checking it creates no bucket. */
  method DefaultOpenScenario(knownModel: string -> bool)
    requires knownModel("gpt")
  {
    var rl := new RateLimiter();
    rl.Update([RateLimitRule("key-a", "gpt", 1)], ["key-a", "key-b"], knownModel);
    assert rl.rules == map[KeyOf("key-a", "gpt") := 1];
    var unruled := rl.Check("key-b", "gpt", 0);
    var again := rl.Check("key-b", "gpt", 0);
    assert unruled && again && rl.buckets == map[];
  }

  /** A rule update that removes a key drops its bucket, and the key is open again. */
  method CleanupScenario(knownModel: string -> bool)
    requires knownModel("gpt")
  {
    var rl := new RateLimiter();
    var key := KeyOf("key-a", "gpt");
    rl.Update([RateLimitRule("key-a", "gpt", 1)], ["key-a"], knownModel);
    assert rl.rules == map[key := 1] && rl.buckets == map[];
    var first := rl.Check("key-a", "gpt", 0);
    assert key in rl.buckets;

    rl.Update([], ["key-a"], knownModel);
    assert rl.rules == map[] && rl.buckets == map[];
    var reopened := rl.Check("key-a", "gpt", 0);
    assert reopened;
  }

  /** A rule that survives an update keeps its bucket, exhausted or not. */
  method KeepScenario(knownModel: string -> bool)
    requires knownModel("gpt")
  {
    var rl := new RateLimiter();
    var key := KeyOf("key-a", "gpt");
    var rule := RateLimitRule("key-a", "gpt", 1);
    rl.Update([rule], ["key-a"], knownModel);
    assert rl.rules == map[key := 1] && rl.buckets == map[];
    assert Admit(None, 1, 0) == Verdict(true, BucketState(0, 0, Unit, 1));
    var first := rl.Check("key-a", "gpt", 0);
    assert first && rl.buckets[key].State() == BucketState(0, 0, Unit, 1);

    rl.Update([rule], ["key-a"], knownModel);
    assert rl.rules == map[key := 1] && key in rl.buckets;
    assert rl.buckets[key].State() == BucketState(0, 0, Unit, 1);
    assert rl.buckets.Keys == {key};
    assert Admit(Some(BucketState(0, 0, Unit, 1)), 1, 0).allowed == false;
    var kept := rl.Check("key-a", "gpt", 0);
    assert !kept;
  }

  /** A key whose rule is removed and then restored starts over with a full bucket. */
  method RestartScenario(knownModel: string -> bool)
    requires knownModel("gpt")
  {
    var rl := new RateLimiter();
    var key := KeyOf("key-a", "gpt");
    var rule := RateLimitRule("key-a", "gpt", 1);
    rl.Update([rule], ["key-a"], knownModel);
    assert rl.rules == map[key := 1] && rl.buckets == map[];
    var first := rl.Check("key-a", "gpt", 0);
    assert first && key in rl.buckets;

    rl.Update([], ["key-a"], knownModel);
    rl.Update([rule], ["key-a"], knownModel);
    assert rl.rules == map[key := 1] && rl.buckets == map[];
    var restarted := rl.Check("key-a", "gpt", 0);
    assert restarted;
  }
}
