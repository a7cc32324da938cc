/**
 * The minphony check (rules/minphony/minphony.go): every required target must be
 * defined by some rule and declared phony by a variable named PHONY. The required
 * list is the rule's own (all, clean, test when registered) unless the `required`
 * configuration key replaces it; its empty value switches the check off.
 */
module MinPhony {
  import opened GoStrings
  import opened Parser
  import opened RuleBase
  import opened Phony

  const Name: string := "minphony"

  /** The required list the rule is registered with. */
  const DefaultRequired: seq<string> := ["all", "clean", "test"]

  /** Each piece trimmed. */
  function TrimEach(parts: seq<string>): seq<string> {
    seq(|parts|, k requires 0 <= k < |parts| => TrimSpace(parts[k]))
  }

  /** The required targets: the configured comma-separated list, trimmed, or the rule's own list. */
  function Required(builtIn: seq<string>, cfg: RuleConfig): seq<string> {
    if "required" in cfg then
      if cfg["required"] == "" then [] else TrimEach(Split(cfg["required"], ','))
    else builtIn
  }

  /** The line every violation cites: one less than the last PHONY variable's, or 0 when there is none. */
  function PhonyLine(vars: seq<Variable>): int {
    if vars == [] then 0
    else if vars[|vars| - 1].name == "PHONY" then vars[|vars| - 1].lineNumber - 1
    else PhonyLine(vars[..|vars| - 1])
  }

  /** The targets some rule defines. */
  function Targets(rules: seq<Rule>): set<string> {
    if rules == [] then {}
    else Targets(rules[..|rules| - 1]) + {rules[|rules| - 1].target}
  }

  /** The messages quote the target as %q does, without Go's escaping of special characters. */
  const Opening: string := "Required target \""
  const MissingClosing: string := "\" is missing from the Makefile."
  const UndeclaredClosing: string := "\" must be declared PHONY."

  function MissingMessage(req: string): string {
    Opening + req + MissingClosing
  }

  function UndeclaredMessage(req: string): string {
    Opening + req + UndeclaredClosing
  }

  /** The report that a required target is defined by no rule; the severity is left unset. */
  function Missing(req: string, fileName: string, line: int): RuleViolation {
    RuleViolation(Name, MissingMessage(req), fileName, line, "")
  }

  /** The report that a required target is defined but not declared phony. */
  function Undeclared(req: string, fileName: string, line: int): RuleViolation {
    RuleViolation(Name, UndeclaredMessage(req), fileName, line, "")
  }

  /** The violation for one required target: missing, not declared phony, or none. */
  function Check(req: string, defined: set<string>, phony: set<string>, fileName: string, line: int): seq<RuleViolation> {
    if req !in defined then [Missing(req, fileName, line)]
    else if req !in phony then [Undeclared(req, fileName, line)]
    else []
  }

  /** The violations for the required targets, in their order. */
  function Violations(required: seq<string>, defined: set<string>, phony: set<string>, fileName: string, line: int): seq<RuleViolation> {
    if required == [] then []
    else
      Violations(required[..|required| - 1], defined, phony, fileName, line)
        + Check(required[|required| - 1], defined, phony, fileName, line)
  }

  /** What Run reports for a Makefile. */
  function RunSpec(builtIn: seq<string>, m: Makefile, cfg: RuleConfig): seq<RuleViolation> {
    Violations(Required(builtIn, cfg), Targets(m.rules), PhonyVariableNames(m.variables), m.fileName, PhonyLine(m.variables))
  }

  function DescriptionOf(list: string): string {
    "Minimum required phony targets must be present (" + list + ")."
  }

  /** The description names the configured list verbatim when it is set and not empty, and the rule's own list otherwise. */
  function Description(builtIn: seq<string>, cfg: RuleConfig): string {
    if "required" in cfg && cfg["required"] != "" then DescriptionOf(cfg["required"])
    else DescriptionOf(Join(builtIn, ","))
  }

  /** The check as the Go method runs it: the required list, the phony names and line, the targets, then the walk over the required list. */
  method Run(builtIn: seq<string>, makefile: Makefile, config: RuleConfig) returns (ret: seq<RuleViolation>)
    ensures ret == RunSpec(builtIn, makefile, config)
  {
    var required := LoadRequired(builtIn, config);
    var declaredPhony, phonyLine := CollectPhony(makefile.variables);
    var definedTargets := CollectTargets(makefile.rules);
    ret := CheckRequired(required, definedTargets, declaredPhony, makefile.fileName, phonyLine);
  }

  /** The configured list split at commas and trimmed in place, or the rule's own list. */
  method LoadRequired(builtIn: seq<string>, config: RuleConfig) returns (required: seq<string>)
    ensures required == Required(builtIn, config)
  {
    required := builtIn;
    if "required" in config {
      var confRequired := config["required"];
      if confRequired == "" {
        required := [];
      } else {
        required := Split(confRequired, ',');
      }
      ghost var parts := required;
      var i := 0;
      while i < |required|
        invariant 0 <= i <= |required| == |parts|
        invariant forall k :: 0 <= k < i ==> required[k] == TrimSpace(parts[k])
        invariant forall k :: i <= k < |required| ==> required[k] == parts[k]
      {
        required := required[i := TrimSpace(required[i])];
        i := i + 1;
      }
      assert required == TrimEach(parts);
    }
  }

  /** The fields of every PHONY variable, and the line one less than the last one's. */
  method CollectPhony(vars: seq<Variable>) returns (declaredPhony: set<string>, phonyLine: int)
    ensures declaredPhony == PhonyVariableNames(vars) && phonyLine == PhonyLine(vars)
  {
    declaredPhony := {};
    phonyLine := 0;
    var i := 0;
    while i < |vars|
      invariant 0 <= i <= |vars|
      invariant declaredPhony == PhonyVariableNames(vars[..i])
      invariant phonyLine == PhonyLine(vars[..i])
    {
      var variable := vars[i];
      assert vars[..i + 1][..i] == vars[..i];
      if variable.name == "PHONY" {
        phonyLine := variable.lineNumber - 1;
        var fields := Fields(variable.assignment);
        var j := 0;
        while j < |fields|
          invariant 0 <= j <= |fields|
          invariant declaredPhony == PhonyVariableNames(vars[..i]) + set x | x in fields[..j]
        {
          assert fields[..j + 1] == fields[..j] + [fields[j]];
          declaredPhony := declaredPhony + {fields[j]};
          j := j + 1;
        }
        assert fields[..j] == fields;
      }
      i := i + 1;
    }
    assert vars[..i] == vars;
  }

  /** The target of every rule. */
  method CollectTargets(rules: seq<Rule>) returns (definedTargets: set<string>)
    ensures definedTargets == Targets(rules)
  {
    definedTargets := {};
    var i := 0;
    while i < |rules|
      invariant 0 <= i <= |rules|
      invariant definedTargets == Targets(rules[..i])
    {
      assert rules[..i + 1][..i] == rules[..i];
      definedTargets := definedTargets + {rules[i].target};
      i := i + 1;
    }
    assert rules[..i] == rules;
  }

  /** The walk over the required list: a missing target, else an undeclared one, is reported. */
  method CheckRequired(required: seq<string>, definedTargets: set<string>, declaredPhony: set<string>, fileName: string, phonyLine: int)
    returns (ret: seq<RuleViolation>)
    ensures ret == Violations(required, definedTargets, declaredPhony, fileName, phonyLine)
  {
    ret := [];
    var i := 0;
    while i < |required|
      invariant 0 <= i <= |required|
      invariant ret == Violations(required[..i], definedTargets, declaredPhony, fileName, phonyLine)
    {
      var req := required[i];
      assert required[..i + 1][..i] == required[..i];
      if req !in definedTargets {
        ret := ret + [Missing(req, fileName, phonyLine)];
      } else if req !in declaredPhony {
        ret := ret + [Undeclared(req, fileName, phonyLine)];
      }
      i := i + 1;
    }
    assert required[..i] == required;
  }

  // ---------------------------------------------------------------------------
  // Properties.

  /** The two messages name their target, and they never coincide. */
  lemma MessagesDistinct(a: string, b: string)
    ensures MissingMessage(a) == MissingMessage(b) <==> a == b
    ensures UndeclaredMessage(a) == UndeclaredMessage(b) <==> a == b
    ensures MissingMessage(a) != UndeclaredMessage(b)
  {
    if MissingMessage(a) == MissingMessage(b) {
      InfixInjective(Opening, a, b, MissingClosing);
    }
    if UndeclaredMessage(a) == UndeclaredMessage(b) {
      InfixInjective(Opening, a, b, UndeclaredClosing);
    }
    LastButOne(Opening + a, MissingClosing);
    LastButOne(Opening + b, UndeclaredClosing);
  }

  lemma LastButOne(s: string, t: string)
    requires |t| >= 2
    ensures (s + t)[|s + t| - 2] == t[|t| - 2]
  {
  }

  /**
   * A required target is reported missing exactly when no rule defines it, and
   * reported undeclared exactly when a rule defines it but it is not declared phony.
   */
  lemma {:induction false} ViolationsReport(required: seq<string>, defined: set<string>, phony: set<string>, fileName: string, line: int, req: string)
    ensures Missing(req, fileName, line) in Violations(required, defined, phony, fileName, line)
      <==> req in required && req !in defined
    ensures Undeclared(req, fileName, line) in Violations(required, defined, phony, fileName, line)
      <==> req in required && req in defined && req !in phony
    decreases |required|
  {
    if required != [] {
      var init, last := required[..|required| - 1], required[|required| - 1];
      ViolationsReport(init, defined, phony, fileName, line, req);
      MessagesDistinct(req, last);
      MessagesDistinct(last, req);
      assert required == init + [last];
    }
  }

  /**
   * At most one violation per required target, each about a required target, at
   * the given line, from this file, with the severity left unset.
   */
  lemma {:induction false} ViolationsShape(required: seq<string>, defined: set<string>, phony: set<string>, fileName: string, line: int)
    ensures var vs := Violations(required, defined, phony, fileName, line);
      && |vs| <= |required|
      && forall v :: v in vs ==>
        && v.rule == Name && v.fileName == fileName && v.lineNumber == line && v.severity == ""
        && exists req :: req in required && (v == Missing(req, fileName, line) || v == Undeclared(req, fileName, line))
    decreases |required|
  {
    if required != [] {
      var init, last := required[..|required| - 1], required[|required| - 1];
      ViolationsShape(init, defined, phony, fileName, line);
      assert forall req :: req in init ==> req in required;
      assert last in required;
    }
  }

  /** No PHONY variable puts the violations at line 0; otherwise they sit one line above the last PHONY variable. */
  lemma {:induction false} PhonyLineIs(vars: seq<Variable>)
    ensures (forall k :: 0 <= k < |vars| ==> vars[k].name != "PHONY") ==> PhonyLine(vars) == 0
    ensures (exists k :: 0 <= k < |vars| && vars[k].name == "PHONY") ==>
      exists k :: ( && 0 <= k < |vars| && vars[k].name == "PHONY" && PhonyLine(vars) == vars[k].lineNumber - 1
                    && forall k' :: k < k' < |vars| ==> vars[k'].name != "PHONY")
    decreases |vars|
  {
    if vars != [] {
      var init := vars[..|vars| - 1];
      PhonyLineIs(init);
      if vars[|vars| - 1].name != "PHONY" {
        if exists k :: 0 <= k < |vars| && vars[k].name == "PHONY" {
          var k :| 0 <= k < |vars| && vars[k].name == "PHONY";
          assert init[k] == vars[k];
          var k0 :| ( && 0 <= k0 < |init| && init[k0].name == "PHONY" && PhonyLine(init) == init[k0].lineNumber - 1
                      && forall k' :: k0 < k' < |init| ==> init[k'].name != "PHONY");
          assert vars[k0] == init[k0];
        }
        forall k | 0 <= k < |init| && init[k].name == "PHONY" ensures vars[k].name == "PHONY" {
          assert vars[k] == init[k];
        }
      }
    }
  }

  /**
   * Configuring `required` as a comma-joined list of trimmed names requires exactly
   * those names and describes them as the rule's own list would.
   */
  lemma ConfiguredRequired(builtIn: seq<string>, names: seq<string>)
    requires |names| >= 1
    requires forall k :: 0 <= k < |names| ==> names[k] != "" && ',' !in names[k] && TrimSpace(names[k]) == names[k]
    ensures var cfg := map["required" := Join(names, ",")];
      Required(builtIn, cfg) == names && Description(builtIn, cfg) == Description(names, map[])
  {
    SplitJoin(names, ',');
    var joined := Join(names, ",");
    JoinNotEmpty(names);
    var cfg := map["required" := joined];
    assert cfg["required"] == joined;
    assert TrimEach(names) == names;
  }

  lemma JoinNotEmpty(names: seq<string>)
    requires |names| >= 1 && names[0] != ""
    ensures Join(names, ",") != ""
  {
    if |names| > 1 {
      assert Join(names, ",") == names[0] + "," + Join(names[1..], ",");
    }
  }

  /** An empty `required` configuration switches the check off. */
  lemma RequiredEmptyDisables(builtIn: seq<string>, m: Makefile)
    ensures RunSpec(builtIn, m, map["required" := ""]) == []
  {
  }

  /**
   * The check reads phony declarations only from variables named PHONY. The parser
   * turns `.PHONY: all` into a rule, so a target declared that way is still
   * reported as undeclared.
   */
  /**
   * A required, defined target that only a `.PHONY` rule declares is still
   * reported as undeclared: the check reads `PHONY` variables alone.
   */
  lemma PhonyRuleIgnored(builtIn: seq<string>, m: Makefile, cfg: RuleConfig, t: string)
    requires t in Required(builtIn, cfg) && t in Targets(m.rules)
    requires t in PhonyRuleNames(m.rules) && t !in PhonyVariableNames(m.variables)
    ensures Undeclared(t, m.fileName, PhonyLine(m.variables)) in RunSpec(builtIn, m, cfg)
  {
    ViolationsReport(Required(builtIn, cfg), Targets(m.rules), PhonyVariableNames(m.variables), m.fileName, PhonyLine(m.variables), t);
  }

  /** A concrete Makefile where a `.PHONY` rule does not prevent the report. */
  lemma PhonyRuleNotRead()
    ensures var m := Makefile("Makefile", [Rule(".PHONY", ["all"], [], "Makefile", 1), Rule("all", [], [], "Makefile", 2)], []);
      && "all" in PhonyRuleNames(m.rules)
      && RunSpec(["all"], m, map[]) == [Undeclared("all", "Makefile", 0)]
  {
    var m := Makefile("Makefile", [Rule(".PHONY", ["all"], [], "Makefile", 1), Rule("all", [], [], "Makefile", 2)], []);
    assert m.rules[..1] == [m.rules[0]];
    assert "all" in Targets(m.rules);
    assert ["all"][..0] == [];
  }
}
