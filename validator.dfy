/**
 * The engine of validator/validator.go: one pass that runs every registered check
 * that its configuration does not disable, stamps the severity each report left
 * unset, and collects the reports.
 */
module Validator {
  import opened GoSort
  import Parser
  import opened RuleBase
  import opened Rules

  /** The configuration provider: a section per check name. */
  type Config = map<string, RuleConfig>

  /** GetRuleConfig: the check's own section, or the empty configuration when it has none. */
  function GetRuleConfig(configs: Config, name: string): (cfg: RuleConfig)
    ensures name in configs ==> cfg == configs[name]
    ensures name !in configs ==> cfg == map[]
  {
    if name in configs then configs[name] else map[]
  }

  /** A check is skipped exactly when its "disabled" key is the string "true". */
  predicate Disabled(cfg: RuleConfig) {
    Get(cfg, "disabled") == "true"
  }

  /**
   * The severity stamp: each report keeps everything it has, and only a report
   * whose severity is unset takes `severity`.
   */
  function Stamp(vs: seq<RuleViolation>, severity: Severity): (r: seq<RuleViolation>)
    ensures |r| == |vs|
    ensures forall i :: 0 <= i < |vs| ==> r[i].(severity := vs[i].severity) == vs[i]
    ensures forall i :: 0 <= i < |vs| && vs[i].severity != "" ==> r[i] == vs[i]
    ensures forall i :: 0 <= i < |vs| && vs[i].severity == "" ==> r[i].severity == severity
  {
    seq(|vs|, i requires 0 <= i < |vs| => if vs[i].severity == "" then vs[i].(severity := severity) else vs[i])
  }

  /** What one check adds to the result: nothing when disabled, else its stamped reports. */
  function Contribution(rule: Rule, m: Parser.Makefile, cfg: RuleConfig): seq<RuleViolation> {
    if Disabled(cfg) then [] else Stamp(Run(rule, m, cfg), GetSeverityFromConfig(rule, cfg))
  }

  /** What each registered check would add, by name. */
  function Outputs(rules: map<string, Rule>, m: Parser.Makefile, configs: Config): map<string, seq<RuleViolation>> {
    map n | n in rules :: Contribution(rules[n], m, GetRuleConfig(configs, n))
  }

  /** The shares of the checks named by `order`, position by position. */
  function Shares(order: seq<string>, outputs: map<string, seq<RuleViolation>>): seq<seq<RuleViolation>>
    requires forall n :: n in order ==> n in outputs
  {
    seq(|order|, i requires 0 <= i < |order| => outputs[order[i]])
  }

  /** The parts one after the other (Go's repeated `append(ret, part...)`). */
  function Flatten<T>(parts: seq<seq<T>>): seq<T> {
    if parts == [] then [] else Flatten(parts[..|parts| - 1]) + parts[|parts| - 1]
  }

  /** The reports of the checks named by `order`, taken in that order. */
  function Collected(order: seq<string>, rules: map<string, Rule>, m: Parser.Makefile, configs: Config): seq<RuleViolation>
    requires forall n :: n in order ==> n in rules
  {
    Flatten(Shares(order, Outputs(rules, m, configs)))
  }

  /**
   * Validate: every registered check runs once, in the registry's unspecified
   * iteration order (`order`), on the same Makefile; the result is the checks'
   * stamped reports in that order.
   */
  method Validate(registry: RuleRegistry, makefile: Parser.Makefile, configs: Config)
    returns (ret: seq<RuleViolation>, ghost order: seq<string>)
    ensures Distinct(order)
    ensures forall n :: n in order <==> n in registry.rules
    ensures ret == Collected(order, registry.rules, makefile, configs)
    ensures forall v :: v in ret <==>
      exists n :: n in registry.rules && v in Contribution(registry.rules[n], makefile, GetRuleConfig(configs, n))
  {
    var registered := registry.rules;
    ret, order := [], [];
    var left := registered.Keys;
    while left != {}
      invariant left <= registered.Keys
      invariant forall n :: n in order <==> n in registered && n !in left
      invariant Distinct(order)
      invariant ret == Collected(order, registered, makefile, configs)
      decreases left
    {
      var name :| name in left;
      var rule := registered[name];
      var ruleConfig := GetRuleConfig(configs, name);
      var contribution := RunEnabled(rule, makefile, ruleConfig);
      ret := ret + contribution;
      CollectedSnoc(order, name, registered, makefile, configs);
      order := order + [name];
      left := left - {name};
    }
    CollectedFromRegistry(order, registered, makefile, configs);
  }

  /** The body of the loop over the registry: the disabled filter, the run and the stamp. */
  method RunEnabled(rule: Rule, makefile: Parser.Makefile, ruleConfig: RuleConfig) returns (contribution: seq<RuleViolation>)
    ensures contribution == Contribution(rule, makefile, ruleConfig)
  {
    contribution := [];
    if Get(ruleConfig, "disabled") != "true" {
      var violations := RunRule(rule, makefile, ruleConfig);
      var defaultSeverity := GetSeverityFromConfig(rule, ruleConfig);
      var stamped := new RuleViolation[|violations|](i requires 0 <= i < |violations| => violations[i]);
      StampSeverity(stamped, defaultSeverity);
      contribution := stamped[..];
    }
  }

  /** The loop that writes the resolved severity into each unset report, in place. */
  method StampSeverity(violations: array<RuleViolation>, defaultSeverity: Severity)
    modifies violations
    ensures violations[..] == Stamp(old(violations[..]), defaultSeverity)
  {
    ghost var original := violations[..];
    ghost var target := Stamp(original, defaultSeverity);
    for i := 0 to violations.Length
      invariant forall k :: 0 <= k < i ==> violations[k] == target[k]
      invariant forall k :: i <= k < violations.Length ==> violations[k] == original[k]
    {
      if violations[i].severity == "" {
        violations[i] := violations[i].(severity := defaultSeverity);
      }
    }
    assert violations[..] == target;
  }

  /** A report already stamped with a set severity is left alone by a second stamp. */
  lemma StampIdempotent(vs: seq<RuleViolation>, s: Severity, t: Severity)
    requires s != ""
    ensures Stamp(Stamp(vs, s), t) == Stamp(vs, s)
  {
  }

  /** Flattening splits at any position into the flattened parts before it and after it. */
  lemma {:induction false} FlattenSplit<T>(parts: seq<seq<T>>, k: nat)
    requires k <= |parts|
    ensures Flatten(parts) == Flatten(parts[..k]) + Flatten(parts[k..])
    decreases |parts|
  {
    if k == |parts| {
      assert parts[..k] == parts;
      assert parts[k..] == [];
    } else {
      var init, last := parts[..|parts| - 1], parts[|parts| - 1];
      var tail := parts[k..];
      FlattenSplit(init, k);
      assert init[..k] == parts[..k];
      assert tail[..|tail| - 1] == init[k..] && tail[|tail| - 1] == last;
      assert Flatten(tail) == Flatten(init[k..]) + last;
    }
  }

  /** A report is in the flattened parts exactly when it is in one of them. */
  lemma {:induction false} FlattenMembers<T>(parts: seq<seq<T>>, v: T)
    ensures v in Flatten(parts) <==> exists i :: 0 <= i < |parts| && v in parts[i]
    decreases |parts|
  {
    if parts != [] {
      var init := parts[..|parts| - 1];
      FlattenMembers(init, v);
      assert Flatten(parts) == Flatten(init) + parts[|parts| - 1];
      if v in Flatten(init) {
        var i :| 0 <= i < |init| && v in init[i];
        assert parts[i] == init[i];
      }
      if exists i :: 0 <= i < |parts| && v in parts[i] {
        var i :| 0 <= i < |parts| && v in parts[i];
        if i < |init| {
          assert parts[i] == init[i];
        }
      }
    }
  }

  /** Running one more check appends its share to the result. */
  lemma CollectedSnoc(order: seq<string>, name: string, rules: map<string, Rule>, m: Parser.Makefile, configs: Config)
    requires forall n :: n in order ==> n in rules
    requires name in rules
    ensures forall n :: n in order + [name] ==> n in rules
    ensures Collected(order + [name], rules, m, configs)
      == Collected(order, rules, m, configs) + Contribution(rules[name], m, GetRuleConfig(configs, name))
  {
    var outputs := Outputs(rules, m, configs);
    SharesSnoc(order, name, outputs);
    assert outputs[name] == Contribution(rules[name], m, GetRuleConfig(configs, name));
  }

  /** The shares of an order with one more name end in that name's share. */
  lemma SharesSnoc(order: seq<string>, name: string, outputs: map<string, seq<RuleViolation>>)
    requires forall n :: n in order ==> n in outputs
    requires name in outputs
    ensures forall n :: n in order + [name] ==> n in outputs
    ensures Flatten(Shares(order + [name], outputs)) == Flatten(Shares(order, outputs)) + outputs[name]
  {
    var parts := Shares(order + [name], outputs);
    SharesSlice(order + [name], outputs, 0, |order|);
    assert (order + [name])[0..|order|] == order;
    assert parts[0..|order|] == parts[..|order|];
    assert Flatten(parts) == Flatten(parts[..|order|]) + parts[|order|];
  }

  /**
   * One check's reports form one contiguous block of the result, in the order the
   * check produced them, between the reports of the checks before and after it.
   */
  lemma CollectedBlock(order: seq<string>, rules: map<string, Rule>, m: Parser.Makefile, configs: Config, i: nat)
    requires forall n :: n in order ==> n in rules
    requires i < |order|
    ensures order[i] in rules
    ensures forall n :: n in order[..i] ==> n in rules
    ensures forall n :: n in order[i + 1..] ==> n in rules
    ensures Collected(order, rules, m, configs) ==
      Collected(order[..i], rules, m, configs)
      + Contribution(rules[order[i]], m, GetRuleConfig(configs, order[i]))
      + Collected(order[i + 1..], rules, m, configs)
  {
    var outputs := Outputs(rules, m, configs);
    SharesBlock(order, outputs, i);
    assert outputs[order[i]] == Contribution(rules[order[i]], m, GetRuleConfig(configs, order[i]));
  }

  /** The shares around position `i`: those before it, its own, and those after it. */
  lemma SharesBlock(order: seq<string>, outputs: map<string, seq<RuleViolation>>, i: nat)
    requires forall n :: n in order ==> n in outputs
    requires i < |order|
    ensures order[i] in outputs
    ensures forall n :: n in order[..i] ==> n in outputs
    ensures forall n :: n in order[i + 1..] ==> n in outputs
    ensures Flatten(Shares(order, outputs)) ==
      Flatten(Shares(order[..i], outputs)) + outputs[order[i]] + Flatten(Shares(order[i + 1..], outputs))
  {
    var parts := Shares(order, outputs);
    SharesSlice(order, outputs, 0, i);
    SharesSlice(order, outputs, i + 1, |order|);
    assert order[0..i] == order[..i] && order[i + 1..|order|] == order[i + 1..];
    assert parts[0..i] == parts[..i] && parts[i + 1..|order|] == parts[i + 1..];
    FlattenBlock(parts, i);
  }

  /** A part of the flattened parts sits between the parts before it and the parts after it. */
  lemma FlattenBlock<T>(parts: seq<seq<T>>, i: nat)
    requires i < |parts|
    ensures Flatten(parts) == Flatten(parts[..i]) + parts[i] + Flatten(parts[i + 1..])
  {
    FlattenSplit(parts, i + 1);
    var upto := parts[..i + 1];
    assert upto[..i] == parts[..i] && upto[i] == parts[i];
  }

  /** The shares of a slice of the order are that slice of the shares. */
  lemma SharesSlice(order: seq<string>, outputs: map<string, seq<RuleViolation>>, lo: nat, hi: nat)
    requires forall n :: n in order ==> n in outputs
    requires lo <= hi <= |order|
    ensures forall n :: n in order[lo..hi] ==> n in outputs
    ensures Shares(order[lo..hi], outputs) == Shares(order, outputs)[lo..hi]
  {
    assert forall n :: n in order[lo..hi] ==> n in order;
  }

  /**
   * A report is in the result exactly when some check of the order is enabled and
   * produced it, up to the stamped severity.
   */
  lemma CollectedMembers(order: seq<string>, rules: map<string, Rule>, m: Parser.Makefile, configs: Config, v: RuleViolation)
    requires forall n :: n in order ==> n in rules
    ensures v in Collected(order, rules, m, configs) <==>
      exists i :: 0 <= i < |order| && v in Contribution(rules[order[i]], m, GetRuleConfig(configs, order[i]))
  {
    var outputs := Outputs(rules, m, configs);
    SharesMembers(order, outputs, v);
    forall i | 0 <= i < |order|
      ensures outputs[order[i]] == Contribution(rules[order[i]], m, GetRuleConfig(configs, order[i]))
    {
      assert order[i] in order;
    }
  }

  /**
   * Whatever order the registry is walked in, a report is in the result exactly
   * when some registered check contributed it.
   */
  lemma CollectedFromRegistry(order: seq<string>, rules: map<string, Rule>, m: Parser.Makefile, configs: Config)
    requires forall n :: n in order <==> n in rules
    ensures forall v :: v in Collected(order, rules, m, configs) <==>
      exists n :: n in rules && v in Contribution(rules[n], m, GetRuleConfig(configs, n))
  {
    forall v
      ensures v in Collected(order, rules, m, configs) <==>
        exists n :: n in rules && v in Contribution(rules[n], m, GetRuleConfig(configs, n))
    {
      CollectedMembers(order, rules, m, configs, v);
      if exists n :: n in rules && v in Contribution(rules[n], m, GetRuleConfig(configs, n)) {
        var n :| n in rules && v in Contribution(rules[n], m, GetRuleConfig(configs, n));
        assert n in order;
        var i :| 0 <= i < |order| && order[i] == n;
        assert v in Contribution(rules[order[i]], m, GetRuleConfig(configs, order[i]));
      }
    }
  }

  /** A report is in the flattened shares exactly when it is in the share of some name of the order. */
  lemma SharesMembers(order: seq<string>, outputs: map<string, seq<RuleViolation>>, v: RuleViolation)
    requires forall n :: n in order ==> n in outputs
    ensures v in Flatten(Shares(order, outputs)) <==> exists i :: 0 <= i < |order| && v in outputs[order[i]]
  {
    var parts := Shares(order, outputs);
    FlattenMembers(parts, v);
    if v in Flatten(parts) {
      var i :| 0 <= i < |parts| && v in parts[i];
      assert v in outputs[order[i]];
    }
    if exists i :: 0 <= i < |order| && v in outputs[order[i]] {
      var i :| 0 <= i < |order| && v in outputs[order[i]];
      assert v in parts[i];
    }
  }

  /**
   * One check's share: empty when the check is disabled; otherwise its reports,
   * each carrying the check's name and the file name, with a severity that is set
   * whenever the check's default severity is.
   */
  lemma ContributionFacts(rule: Rule, m: Parser.Makefile, cfg: RuleConfig)
    ensures Disabled(cfg) ==> Contribution(rule, m, cfg) == []
    ensures forall v :: v in Contribution(rule, m, cfg) ==> v.rule == Name(rule) && v.fileName == m.fileName
    ensures DefaultSeverity(rule) != "" ==> forall v :: v in Contribution(rule, m, cfg) ==> v.severity != ""
  {
    var vs := Run(rule, m, cfg);
    var severity := GetSeverityFromConfig(rule, cfg);
    RunAttributed(rule, m, cfg);
    SeverityResolved(rule, cfg);
    forall v | v in Contribution(rule, m, cfg)
      ensures v.rule == Name(rule) && v.fileName == m.fileName
      ensures DefaultSeverity(rule) != "" ==> v.severity != ""
    {
      var k :| 0 <= k < |vs| && v == Stamp(vs, severity)[k];
      assert vs[k] in vs;
    }
  }

  /** A disabled check contributes no report to the result. */
  lemma DisabledSilent(order: seq<string>, rules: map<string, Rule>, m: Parser.Makefile, configs: Config, name: string)
    requires forall n :: n in order ==> n in rules
    requires forall n :: n in rules ==> Name(rules[n]) == n
    requires Disabled(GetRuleConfig(configs, name))
    ensures forall v :: v in Collected(order, rules, m, configs) ==> v.rule != name
  {
    forall v | v in Collected(order, rules, m, configs) ensures v.rule != name {
      CollectedMembers(order, rules, m, configs, v);
      var i :| 0 <= i < |order| && v in Contribution(rules[order[i]], m, GetRuleConfig(configs, order[i]));
      ContributionFacts(rules[order[i]], m, GetRuleConfig(configs, order[i]));
      ContributionFacts(rules[order[i]], m, GetRuleConfig(configs, name));
    }
  }

  /** When every check has a default severity, no report in the result has its severity unset. */
  lemma NoEmptySeverity(order: seq<string>, rules: map<string, Rule>, m: Parser.Makefile, configs: Config)
    requires forall n :: n in order ==> n in rules
    requires forall n :: n in rules ==> DefaultSeverity(rules[n]) != ""
    ensures forall v :: v in Collected(order, rules, m, configs) ==> v.severity != ""
  {
    forall v | v in Collected(order, rules, m, configs) ensures v.severity != "" {
      CollectedMembers(order, rules, m, configs, v);
      var i :| 0 <= i < |order| && v in Contribution(rules[order[i]], m, GetRuleConfig(configs, order[i]));
      ContributionFacts(rules[order[i]], m, GetRuleConfig(configs, order[i]));
    }
  }
}
