/**
 * The target names a Makefile declares phony, from its two representations: a
 * variable named PHONY (what an assignment line `PHONY = …` yields) and a rule
 * whose target is `.PHONY` or `PHONY` (what the parser yields for `.PHONY: …`).
 */
module Phony {
  import opened GoStrings
  import opened Parser

  /** The whitespace-separated words of a text, as a set. */
  function FieldSet(s: string): (names: set<string>)
    ensures forall x :: x in names <==> x in Fields(s)
  {
    set x | x in Fields(s)
  }

  /** The fields of the assignments of the variables named PHONY. */
  function PhonyVariableNames(vars: seq<Variable>): set<string> {
    if vars == [] then {}
    else
      var v := vars[|vars| - 1];
      PhonyVariableNames(vars[..|vars| - 1]) + (if v.name == "PHONY" then FieldSet(v.assignment) else {})
  }

  /** A rule that declares its prerequisites phony. */
  predicate DeclaresPhony(r: Rule) {
    r.target == ".PHONY" || r.target == "PHONY"
  }

  /** The prerequisites of the rules targeted `.PHONY` or `PHONY`. */
  function PhonyRuleNames(rules: seq<Rule>): set<string> {
    if rules == [] then {}
    else
      var r := rules[|rules| - 1];
      PhonyRuleNames(rules[..|rules| - 1]) + (if DeclaresPhony(r) then set x | x in r.dependencies else {})
  }

  /** A name is declared by a variable exactly when it is a field of some PHONY variable's assignment. */
  lemma {:induction false} PhonyVariableNamesIff(vars: seq<Variable>, x: string)
    ensures x in PhonyVariableNames(vars) <==>
      exists k :: 0 <= k < |vars| && vars[k].name == "PHONY" && x in Fields(vars[k].assignment)
    decreases |vars|
  {
    if vars != [] {
      var init := vars[..|vars| - 1];
      PhonyVariableNamesIff(init, x);
      if x in PhonyVariableNames(init) {
        var k :| 0 <= k < |init| && init[k].name == "PHONY" && x in Fields(init[k].assignment);
        assert vars[k] == init[k];
      }
      if exists k :: 0 <= k < |vars| && vars[k].name == "PHONY" && x in Fields(vars[k].assignment) {
        var k :| 0 <= k < |vars| && vars[k].name == "PHONY" && x in Fields(vars[k].assignment);
        if k < |init| {
          assert init[k] == vars[k];
        }
      }
    }
  }

  /** A name is declared by a rule exactly when it is a prerequisite of some `.PHONY` or `PHONY` rule. */
  lemma {:induction false} PhonyRuleNamesIff(rules: seq<Rule>, x: string)
    ensures x in PhonyRuleNames(rules) <==>
      exists k :: 0 <= k < |rules| && DeclaresPhony(rules[k]) && x in rules[k].dependencies
    decreases |rules|
  {
    if rules != [] {
      var init := rules[..|rules| - 1];
      PhonyRuleNamesIff(init, x);
      if x in PhonyRuleNames(init) {
        var k :| 0 <= k < |init| && DeclaresPhony(init[k]) && x in init[k].dependencies;
        assert rules[k] == init[k];
      }
      if exists k :: 0 <= k < |rules| && DeclaresPhony(rules[k]) && x in rules[k].dependencies {
        var k :| 0 <= k < |rules| && DeclaresPhony(rules[k]) && x in rules[k].dependencies;
        if k < |init| {
          assert init[k] == rules[k];
        }
      }
    }
  }
}
