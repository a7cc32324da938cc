/**
 * The phonydeclared check (rules/phonydeclared/phonydeclared.go): every rule with
 * no recipe whose target does not start with a dot must be declared phony, by a
 * PHONY variable or by a `.PHONY`/`PHONY` rule.
 */
module PhonyDeclared {
  import opened GoStrings
  import opened Parser
  import opened RuleBase
  import opened Phony

  const Name: string := "phonydeclared"

  const DescriptionText: string := "Every target without a body needs to be marked PHONY"

  /** The description does not depend on the configuration. */
  function Description(cfg: RuleConfig): (d: string)
    ensures d == DescriptionText
  {
    DescriptionText
  }

  function DefaultSeverity(): Severity {
    SeverityWarning
  }

  /** Both representations of a phony declaration count. */
  function PhonySet(m: Makefile): set<string> {
    PhonyVariableNames(m.variables) + PhonyRuleNames(m.rules)
  }

  /** A rule the check reports: not dot-prefixed, without a recipe, and not declared phony. */
  predicate Flagged(r: Rule, phony: set<string>) {
    !HasPrefix(r.target, ".") && |r.body| == 0 && r.target !in phony
  }

  /** The message quotes the target as %q does, without Go's escaping of special characters. */
  const Opening: string := "Target \""
  const Closing: string := "\" should be declared PHONY."

  function Message(target: string): string {
    Opening + target + Closing
  }

  /** The report for a rule, at its own line, with the severity left unset. */
  function Report(r: Rule, fileName: string): RuleViolation {
    RuleViolation(Name, Message(r.target), fileName, r.lineNumber, "")
  }

  /** One report per flagged rule, in the order of the rules. */
  function Violations(rules: seq<Rule>, phony: set<string>, fileName: string): seq<RuleViolation> {
    if rules == [] then []
    else
      var r := rules[|rules| - 1];
      Violations(rules[..|rules| - 1], phony, fileName) + (if Flagged(r, phony) then [Report(r, fileName)] else [])
  }

  /** What Run reports for a Makefile. */
  function RunSpec(m: Makefile): seq<RuleViolation> {
    Violations(m.rules, PhonySet(m), m.fileName)
  }

  /** The check as the Go method runs it: the phony set from the variables, then from the rules, then the walk over the rules. */
  method Run(makefile: Makefile, config: RuleConfig) returns (ret: seq<RuleViolation>)
    ensures ret == RunSpec(makefile)
  {
    var fromVariables := CollectVariablePhony(makefile.variables);
    var ruleIndex := CollectRulePhony(makefile.rules, fromVariables);
    ret := ReportRules(makefile.rules, ruleIndex, makefile.fileName);
  }

  /** The fields of every PHONY variable's assignment. */
  method CollectVariablePhony(vars: seq<Variable>) returns (ruleIndex: set<string>)
    ensures ruleIndex == PhonyVariableNames(vars)
  {
    ruleIndex := {};
    var i := 0;
    while i < |vars|
      invariant 0 <= i <= |vars|
      invariant ruleIndex == PhonyVariableNames(vars[..i])
    {
      assert vars[..i + 1][..i] == vars[..i];
      if vars[i].name == "PHONY" {
        var fields := Fields(vars[i].assignment);
        var j := 0;
        while j < |fields|
          invariant 0 <= j <= |fields|
          invariant ruleIndex == PhonyVariableNames(vars[..i]) + set x | x in fields[..j]
        {
          assert fields[..j + 1] == fields[..j] + [fields[j]];
          ruleIndex := ruleIndex + {fields[j]};
          j := j + 1;
        }
        assert fields[..j] == fields;
      }
      i := i + 1;
    }
    assert vars[..i] == vars;
  }

  /** Adds the prerequisites of every `.PHONY` or `PHONY` rule. */
  method CollectRulePhony(rules: seq<Rule>, start: set<string>) returns (ruleIndex: set<string>)
    ensures ruleIndex == start + PhonyRuleNames(rules)
  {
    ruleIndex := start;
    var i := 0;
    while i < |rules|
      invariant 0 <= i <= |rules|
      invariant ruleIndex == start + PhonyRuleNames(rules[..i])
    {
      assert rules[..i + 1][..i] == rules[..i];
      if rules[i].target == ".PHONY" || rules[i].target == "PHONY" {
        var deps := rules[i].dependencies;
        var j := 0;
        while j < |deps|
          invariant 0 <= j <= |deps|
          invariant ruleIndex == start + PhonyRuleNames(rules[..i]) + set x | x in deps[..j]
        {
          assert deps[..j + 1] == deps[..j] + [deps[j]];
          ruleIndex := ruleIndex + {deps[j]};
          j := j + 1;
        }
        assert deps[..j] == deps;
      }
      i := i + 1;
    }
    assert rules[..i] == rules;
  }

  /** Skips dot-prefixed targets and reports each rule without a recipe that is not declared phony. */
  method ReportRules(rules: seq<Rule>, ruleIndex: set<string>, fileName: string) returns (ret: seq<RuleViolation>)
    ensures ret == Violations(rules, ruleIndex, fileName)
  {
    ret := [];
    var i := 0;
    while i < |rules|
      invariant 0 <= i <= |rules|
      invariant ret == Violations(rules[..i], ruleIndex, fileName)
    {
      var rule := rules[i];
      assert rules[..i + 1][..i] == rules[..i];
      if !HasPrefix(rule.target, ".") {
        var ok := rule.target in ruleIndex;
        if |rule.body| == 0 && !ok {
          ret := ret + [Report(rule, fileName)];
        }
      }
      i := i + 1;
    }
    assert rules[..i] == rules;
  }

  // ---------------------------------------------------------------------------
  // Properties.

  /** The message names its target. */
  lemma MessageInjective(a: string, b: string)
    ensures Message(a) == Message(b) <==> a == b
  {
    if Message(a) == Message(b) {
      InfixInjective(Opening, a, b, Closing);
    }
  }

  /**
   * The reports are exactly the reports of the flagged rules: each violation
   * belongs to a rule that is not dot-prefixed, has no recipe and is not declared
   * phony, and every such rule is reported. There are no more reports than rules.
   */
  lemma {:induction false} ViolationsExactly(rules: seq<Rule>, phony: set<string>, fileName: string)
    ensures |Violations(rules, phony, fileName)| <= |rules|
    ensures forall v :: v in Violations(rules, phony, fileName) <==>
      exists k :: 0 <= k < |rules| && Flagged(rules[k], phony) && v == Report(rules[k], fileName)
    decreases |rules|
  {
    if rules != [] {
      var init := rules[..|rules| - 1];
      ViolationsExactly(init, phony, fileName);
      forall v ensures v in Violations(rules, phony, fileName) <==>
        exists k :: 0 <= k < |rules| && Flagged(rules[k], phony) && v == Report(rules[k], fileName)
      {
        if v in Violations(init, phony, fileName) {
          var k :| 0 <= k < |init| && Flagged(init[k], phony) && v == Report(init[k], fileName);
          assert rules[k] == init[k];
        }
        if exists k :: 0 <= k < |rules| && Flagged(rules[k], phony) && v == Report(rules[k], fileName) {
          var k :| 0 <= k < |rules| && Flagged(rules[k], phony) && v == Report(rules[k], fileName);
          if k < |init| {
            assert init[k] == rules[k];
          }
        }
      }
    }
  }

  /**
   * A target is never reported when it starts with a dot, when it is declared
   * phony, or when every rule for it has a recipe.
   */
  lemma NeverReported(m: Makefile, t: string)
    requires HasPrefix(t, ".") || t in PhonySet(m)
      || forall k :: 0 <= k < |m.rules| && m.rules[k].target == t ==> m.rules[k].body != []
    ensures forall v :: v in RunSpec(m) ==> v.violation != Message(t)
  {
    ViolationsExactly(m.rules, PhonySet(m), m.fileName);
    forall v | v in RunSpec(m) ensures v.violation != Message(t) {
      var k :| 0 <= k < |m.rules| && Flagged(m.rules[k], PhonySet(m)) && v == Report(m.rules[k], m.fileName);
      MessageInjective(m.rules[k].target, t);
    }
  }

  /** Every report comes from this check, in this file, with the severity left for the validator. */
  lemma ViolationsUnset(m: Makefile)
    ensures forall v :: v in RunSpec(m) ==> v.rule == Name && v.fileName == m.fileName && v.severity == ""
  {
    ViolationsExactly(m.rules, PhonySet(m), m.fileName);
  }
}
