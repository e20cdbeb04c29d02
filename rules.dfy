/**
 The rule set of the rate limiter: configured rules, the key they are filed
 under, and the table that `RateLimiter.Update` builds from them.
 */
module Rules {

  /** One configured limit: at most `rph` requests per hour for `apiKey` on `model`. */
  datatype RateLimitRule = RateLimitRule(apiKey: string, model: string, rph: int)
  {
    /** The key this rule is filed under. */
    function Key(): RuleKey {
      KeyOf(apiKey, model)
    }
  }

  /** The composite (API key, model) under which rules and buckets are kept. */
  type RuleKey = (string, string)

  function KeyOf(apiKey: string, model: string): RuleKey {
    (apiKey, model)
  }

  /** The tuple key never confuses two different (API key, model) pairs. */
  lemma KeyOfInjective(apiKey1: string, model1: string, apiKey2: string, model2: string)
    ensures KeyOf(apiKey1, model1) == KeyOf(apiKey2, model2) <==> apiKey1 == apiKey2 && model1 == model2
  {
  }

  /** The key as the source writes it: the API key, a '|' and the model name. */
  function JoinKey(apiKey: string, model: string): (s: string)
    ensures |s| == |apiKey| + 1 + |model|
    ensures s[|apiKey|] == '|'
  {
    apiKey + "|" + model
  }

  /** Two different pairs that the joined key files under the same string. */
  lemma JoinKeyCollides()
    ensures JoinKey("a|b", "c") == JoinKey("a", "b|c")
    ensures KeyOf("a|b", "c") != KeyOf("a", "b|c")
  {
    assert JoinKey("a|b", "c") == ['a', '|', 'b', '|', 'c'];
    assert JoinKey("a", "b|c") == ['a', '|', 'b', '|', 'c'];
  }

  /** The joined key is collision-free once no API key contains '|'. */
  lemma JoinKeyInjective(apiKey1: string, model1: string, apiKey2: string, model2: string)
    requires '|' !in apiKey1 && '|' !in apiKey2
    ensures JoinKey(apiKey1, model1) == JoinKey(apiKey2, model2) <==> apiKey1 == apiKey2 && model1 == model2
  {
    var s1, s2 := JoinKey(apiKey1, model1), JoinKey(apiKey2, model2);
    if s1 == s2 {
      var n1, n2 := |apiKey1|, |apiKey2|;
      if n1 < n2 {
        assert false;
      } else if n2 < n1 {
        assert false;
      }
      assert apiKey1 == s1[..n1] && apiKey2 == s2[..n2];
      assert model1 == s1[n1 + 1..] && model2 == s2[n2 + 1..];
    }
  }

  /**
   A collision of the joined key needs a '|' on both sides: the pair with the
   shorter API key has one in its model name, the pair with the longer API
   key has one in its API key.
   */
  lemma JoinKeyCollisionNeedsBoth(apiKey1: string, model1: string, apiKey2: string, model2: string)
    requires JoinKey(apiKey1, model1) == JoinKey(apiKey2, model2)
    requires apiKey1 != apiKey2 || model1 != model2
    ensures ('|' in apiKey1 && '|' in model2) || ('|' in apiKey2 && '|' in model1)
  {
    var s, t := JoinKey(apiKey1, model1), JoinKey(apiKey2, model2);
    var n1, n2 := |apiKey1|, |apiKey2|;
    assert apiKey1 == s[..n1] && model1 == s[n1 + 1..];
    assert apiKey2 == t[..n2] && model2 == t[n2 + 1..];
    if n1 < n2 {
      assert apiKey2[n1] == s[n1] == '|';
      assert model1[n2 - n1 - 1] == s[n2] == '|';
    } else if n2 < n1 {
      assert apiKey1[n2] == s[n2] == '|';
      assert model2[n1 - n2 - 1] == s[n1] == '|';
    } else {
      assert false;
    }
  }

  /**
   Whether `Update` keeps a rule: its API key is one of the valid keys, its
   ceiling is positive, and the model registry knows its model.
   */
  predicate Accepted(rule: RateLimitRule, validAPIKeys: seq<string>, knownModel: string -> bool) {
    && rule.apiKey in validAPIKeys
    && rule.rph > 0
    && knownModel(rule.model)
  }

  /**
   The rule table built from `rules` in input order: every accepted rule is
   stored under its key, a later one overwriting an earlier one.
   */
  function RuleTable(rules: seq<RateLimitRule>, validAPIKeys: seq<string>, knownModel: string -> bool): (t: map<RuleKey, int>)
    ensures forall k :: k in t ==> t[k] > 0
  {
    if rules == [] then map[]
    else
      var t := RuleTable(rules[..|rules| - 1], validAPIKeys, knownModel);
      var rule := rules[|rules| - 1];
      if Accepted(rule, validAPIKeys, knownModel) then t[rule.Key() := rule.rph] else t
  }

  /** A key has a rule exactly when some accepted input rule is filed under it. */
  lemma {:induction false} RuleTableDomain(rules: seq<RateLimitRule>, validAPIKeys: seq<string>, knownModel: string -> bool, k: RuleKey)
    ensures k in RuleTable(rules, validAPIKeys, knownModel) <==>
            exists i :: 0 <= i < |rules| && Accepted(rules[i], validAPIKeys, knownModel) && rules[i].Key() == k
  {
    if rules != [] {
      var init := rules[..|rules| - 1];
      RuleTableDomain(init, validAPIKeys, knownModel, k);
      if exists i :: 0 <= i < |init| && Accepted(init[i], validAPIKeys, knownModel) && init[i].Key() == k {
        var i :| 0 <= i < |init| && Accepted(init[i], validAPIKeys, knownModel) && init[i].Key() == k;
        assert rules[i] == init[i];
      }
      if exists i :: 0 <= i < |rules| && Accepted(rules[i], validAPIKeys, knownModel) && rules[i].Key() == k {
        var i :| 0 <= i < |rules| && Accepted(rules[i], validAPIKeys, knownModel) && rules[i].Key() == k;
        if i < |init| {
          assert init[i] == rules[i];
        }
      }
    }
  }

  /** The ceiling stored under a key is the one of the last accepted rule filed under it. */
  lemma {:induction false} RuleTableLastWins(rules: seq<RateLimitRule>, validAPIKeys: seq<string>, knownModel: string -> bool, i: int)
    requires 0 <= i < |rules| && Accepted(rules[i], validAPIKeys, knownModel)
    requires forall j :: i < j < |rules| && Accepted(rules[j], validAPIKeys, knownModel) ==> rules[j].Key() != rules[i].Key()
    ensures rules[i].Key() in RuleTable(rules, validAPIKeys, knownModel)
    ensures RuleTable(rules, validAPIKeys, knownModel)[rules[i].Key()] == rules[i].rph
  {
    var init := rules[..|rules| - 1];
    if i < |rules| - 1 {
      assert init[i] == rules[i];
      forall j | i < j < |init| && Accepted(init[j], validAPIKeys, knownModel)
        ensures init[j].Key() != init[i].Key()
      {
        assert init[j] == rules[j];
      }
      RuleTableLastWins(init, validAPIKeys, knownModel, i);
    }
  }
}
