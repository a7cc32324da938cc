/**
 * The rule engine of rules/rules.go: the closed set of checks, their names,
 * descriptions, default severities and runs; the severity a configuration
 * selects; and the registry the checks are entered in, with its sorted listing.
 */
module Rules {
  import opened GoStrings
  import opened GoSort
  import opened Parser
  import opened RuleBase
  import Phony
  import MinPhony
  import PhonyDeclared
  import UniqueTargets

  /**
   * The registered checks. minphony.go declares no `DefaultSeverity` method for its
   * type, so that severity is a parameter of its variant.
   */
  datatype Rule =
    | MinPhonyRule(required: seq<string>, minPhonySeverity: Severity)
    | PhonyDeclaredRule
    | UniqueTargetsRule

  function Name(r: Rule): string {
    match r
    case MinPhonyRule(_, _) => MinPhony.Name
    case PhonyDeclaredRule => PhonyDeclared.Name
    case UniqueTargetsRule => UniqueTargets.Name
  }

  function Description(r: Rule, cfg: RuleConfig): string {
    match r
    case MinPhonyRule(required, _) => MinPhony.Description(required, cfg)
    case PhonyDeclaredRule => PhonyDeclared.Description(cfg)
    case UniqueTargetsRule => UniqueTargets.Description(cfg)
  }

  function DefaultSeverity(r: Rule): Severity {
    match r
    case MinPhonyRule(_, severity) => severity
    case PhonyDeclaredRule => PhonyDeclared.DefaultSeverity()
    case UniqueTargetsRule => UniqueTargets.DefaultSeverity()
  }

  /** What a check reports for a Makefile under a configuration. */
  function Run(r: Rule, m: Makefile, cfg: RuleConfig): seq<RuleViolation> {
    match r
    case MinPhonyRule(required, _) => MinPhony.RunSpec(required, m, cfg)
    case PhonyDeclaredRule => PhonyDeclared.RunSpec(m)
    case UniqueTargetsRule => UniqueTargets.RunSpec(m, cfg)
  }

  /** The dynamic dispatch of Rule.Run to the check's own method. */
  method RunRule(r: Rule, m: Makefile, cfg: RuleConfig) returns (vs: seq<RuleViolation>)
    ensures vs == Run(r, m, cfg)
  {
    match r {
      case MinPhonyRule(required, _) => vs := MinPhony.Run(required, m, cfg);
      case PhonyDeclaredRule => vs := PhonyDeclared.Run(m, cfg);
      case UniqueTargetsRule => vs := UniqueTargets.Run(m, cfg);
    }
  }

  /** Every report of a check carries the check's own name and the Makefile's file name. */
  lemma RunAttributed(r: Rule, m: Makefile, cfg: RuleConfig)
    ensures forall v :: v in Run(r, m, cfg) ==> v.rule == Name(r) && v.fileName == m.fileName
  {
    match r {
      case MinPhonyRule(required, _) =>
        var req := MinPhony.Required(required, cfg);
        MinPhony.ViolationsShape(req, MinPhony.Targets(m.rules), Phony.PhonyVariableNames(m.variables), m.fileName, MinPhony.PhonyLine(m.variables));
      case PhonyDeclaredRule =>
        PhonyDeclared.ViolationsUnset(m);
      case UniqueTargetsRule =>
        UniqueTargets.ReportsAreRepeats(m.rules, UniqueTargets.IgnoredTargets(cfg), m.fileName);
    }
  }

  /** The three checks have three different names. */
  lemma NamesIdentify(r: Rule, s: Rule)
    requires Name(r) == Name(s)
    ensures r.MinPhonyRule? == s.MinPhonyRule? && r.PhonyDeclaredRule? == s.PhonyDeclaredRule?
  {
  }

  /**
   * GetSeverityFromConfig: the configured severity when it is error, warning or
   * info, and the check's default for a missing key or any other string.
   */
  function GetSeverityFromConfig(rule: Rule, cfg: RuleConfig): (s: Severity)
    ensures "severity" in cfg && IsSeverity(cfg["severity"]) ==> s == cfg["severity"]
    ensures !("severity" in cfg && IsSeverity(cfg["severity"])) ==> s == DefaultSeverity(rule)
  {
    if "severity" in cfg && IsSeverity(cfg["severity"]) then cfg["severity"] else DefaultSeverity(rule)
  }

  /**
   * The resolved severity is always one of the three when the default is, and it
   * is never unset when the default is set.
   */
  lemma SeverityResolved(rule: Rule, cfg: RuleConfig)
    ensures IsSeverity(DefaultSeverity(rule)) ==> IsSeverity(GetSeverityFromConfig(rule, cfg))
    ensures DefaultSeverity(rule) != "" ==> GetSeverityFromConfig(rule, cfg) != ""
    ensures !rule.MinPhonyRule? ==> IsSeverity(GetSeverityFromConfig(rule, cfg))
  {
  }

  /** The map of registered checks, keyed by name. */
  class RuleRegistry {
    var rules: map<string, Rule>

    /** Every check sits under its own name. */
    ghost predicate Valid()
      reads this
    {
      forall name :: name in rules ==> Name(rules[name]) == name
    }

    constructor ()
      ensures Valid() && rules == map[]
    {
      rules := map[];
    }

    /** RegisterRule: enters `r` under its name, replacing a check of the same name. */
    method RegisterRule(r: Rule)
      requires Valid()
      modifies this
      ensures Valid()
      ensures rules == old(rules)[Name(r) := r]
    {
      rules := rules[Name(r) := r];
    }

    /**
     * GetRulesSorted: every registered check exactly once, ordered by strictly
     * ascending name; the registry is only read.
     */
    method GetRulesSorted() returns (sorted: seq<Rule>)
      requires Valid()
      ensures |sorted| == |rules|
      ensures forall i :: 0 <= i < |sorted| ==> Name(sorted[i]) in rules && rules[Name(sorted[i])] == sorted[i]
      ensures forall name :: name in rules ==> exists i :: 0 <= i < |sorted| && Name(sorted[i]) == name
      ensures forall i, j :: 0 <= i < j < |sorted| ==> Less(Name(sorted[i]), Name(sorted[j]))
    {
      var keys := CollectNames(rules);
      var names := SortStrings(keys);
      SortedNames(keys, names);
      sorted := LookupAll(rules, names);
      assert |sorted| == |names| == |keys| == |rules|;
      forall name | name in rules ensures exists i :: 0 <= i < |sorted| && Name(sorted[i]) == name {
        assert name in names;
        var i :| 0 <= i < |names| && names[i] == name;
        assert Name(sorted[i]) == name;
      }
    }
  }

  /** The loop that looks up each sorted name; every check sits under its own name. */
  method LookupAll(rules: map<string, Rule>, names: seq<string>) returns (sorted: seq<Rule>)
    requires forall k :: k in names ==> k in rules
    requires forall name :: name in rules ==> Name(rules[name]) == name
    ensures |sorted| == |names|
    ensures forall j :: 0 <= j < |names| ==> sorted[j] == rules[names[j]] && Name(sorted[j]) == names[j]
  {
    sorted := [];
    var i := 0;
    while i < |names|
      invariant 0 <= i <= |names|
      invariant |sorted| == i
      invariant forall j :: 0 <= j < i ==> sorted[j] == rules[names[j]] && Name(sorted[j]) == names[j]
    {
      assert names[i] in names;
      sorted := sorted + [rules[names[i]]];
      i := i + 1;
    }
  }

  /** The loop over the registry's keys, in the map's own (unspecified) order. */
  method CollectNames(rules: map<string, Rule>) returns (keys: seq<string>)
    ensures Distinct(keys) && |keys| == |rules|
    ensures forall k :: k in keys <==> k in rules
  {
    keys := [];
    var left := rules.Keys;
    while left != {}
      invariant left <= rules.Keys
      invariant forall k :: k in keys <==> k in rules && k !in left
      invariant Distinct(keys)
      invariant |keys| + |left| == |rules.Keys|
      decreases left
    {
      var name :| name in left;
      keys := keys + [name];
      left := left - {name};
    }
    assert |rules| == |rules.Keys|;
  }

  /** Sorting distinct names gives the same names in strictly ascending order. */
  lemma SortedNames(keys: seq<string>, names: seq<string>)
    requires Distinct(keys) && Sorted(names) && multiset(names) == multiset(keys)
    ensures StrictlyAscending(names) && |names| == |keys|
    ensures forall k :: k in names <==> k in keys
  {
    PermutationKeepsDistinct(keys, names);
    SortedDistinctAscending(names);
    forall k ensures k in names <==> k in keys {
      assert k in names <==> k in multiset(names);
      assert k in keys <==> k in multiset(keys);
    }
    assert |names| == |multiset(names)| == |multiset(keys)| == |keys|;
  }

  /** The registry after the three checks have registered themselves, minphony with its default required list. */
  method DefaultRegistry(minPhonySeverity: Severity) returns (registry: RuleRegistry)
    ensures fresh(registry) && registry.Valid()
    ensures registry.rules == map[
      MinPhony.Name := MinPhonyRule(MinPhony.DefaultRequired, minPhonySeverity),
      PhonyDeclared.Name := PhonyDeclaredRule,
      UniqueTargets.Name := UniqueTargetsRule]
  {
    registry := new RuleRegistry();
    registry.RegisterRule(MinPhonyRule(MinPhony.DefaultRequired, minPhonySeverity));
    registry.RegisterRule(PhonyDeclaredRule);
    registry.RegisterRule(UniqueTargetsRule);
  }
}
