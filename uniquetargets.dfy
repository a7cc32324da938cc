/**
 * The uniquetargets check (rules/uniquetargets/uniquetargets.go): a target defined
 * by more than one rule is reported at each repeat, citing the line of its first
 * definition. `.PHONY` and `PHONY` rules, and the targets the comma-separated
 * `ignore` configuration lists, are exempt.
 */
module UniqueTargets {
  import opened GoStrings
  import opened Parser
  import opened RuleBase

  const Name: string := "uniquetargets"

  function DefaultSeverity(): Severity {
    SeverityError
  }

  const PlainDescription: string := "Targets should be uniquely defined; duplicates can cause recipe overrides or unintended merges."

  /** The description names the ignore list verbatim when it is set and not empty. */
  function Description(cfg: RuleConfig): (d: string)
    ensures "ignore" in cfg && cfg["ignore"] != "" ==> d == "Targets should be uniquely defined (ignoring: " + cfg["ignore"] + ")."
    ensures !("ignore" in cfg && cfg["ignore"] != "") ==> d == PlainDescription
  {
    if "ignore" in cfg && cfg["ignore"] != "" then "Targets should be uniquely defined (ignoring: " + cfg["ignore"] + ")."
    else PlainDescription
  }

  /** The trimmed, non-empty pieces. */
  function IgnoredIn(parts: seq<string>): set<string> {
    if parts == [] then {}
    else
      var t := TrimSpace(parts[|parts| - 1]);
      IgnoredIn(parts[..|parts| - 1]) + (if t != "" then {t} else {})
  }

  /** The targets the `ignore` configuration lists. */
  function IgnoredTargets(cfg: RuleConfig): set<string> {
    if "ignore" in cfg then IgnoredIn(Split(cfg["ignore"], ',')) else {}
  }

  /** A target the check never records nor reports. */
  predicate Exempt(target: string, ignored: set<string>) {
    target == ".PHONY" || target == "PHONY" || target in ignored
  }

  function DuplicateMessage(target: string, prevLine: int, line: int): string {
    "Target \"" + target + "\" defined multiple times (lines " + IntToString(prevLine) + " and " + IntToString(line) + ")."
  }

  /** The report for a repeated rule: at its own line, citing the first definition's line, as an error. */
  function Duplicate(r: Rule, prevLine: int, fileName: string): RuleViolation {
    RuleViolation(Name, DuplicateMessage(r.target, prevLine, r.lineNumber), fileName, r.lineNumber, SeverityError)
  }

  /** The state of the walk over the rules: the first line of each target seen, and the reports so far. */
  datatype Walk = Walk(seen: map<string, int>, violations: seq<RuleViolation>)

  /** The walk over the rules. */
  function WalkRules(rules: seq<Rule>, ignored: set<string>, fileName: string): Walk {
    if rules == [] then Walk(map[], [])
    else
      var w := WalkRules(rules[..|rules| - 1], ignored, fileName);
      var r := rules[|rules| - 1];
      if Exempt(r.target, ignored) then w
      else if r.target in w.seen then Walk(w.seen, w.violations + [Duplicate(r, w.seen[r.target], fileName)])
      else Walk(w.seen[r.target := r.lineNumber], w.violations)
  }

  /** What Run reports for a Makefile. */
  function RunSpec(m: Makefile, cfg: RuleConfig): seq<RuleViolation> {
    WalkRules(m.rules, IgnoredTargets(cfg), m.fileName).violations
  }

  /** The check as the Go method runs it: the ignore list, then the walk over the rules. */
  method Run(makefile: Makefile, cfg: RuleConfig) returns (violations: seq<RuleViolation>)
    ensures violations == RunSpec(makefile, cfg)
  {
    var ignoredTargets := LoadIgnored(cfg);
    var rules := makefile.rules;
    var seen: map<string, int> := map[];
    violations := [];
    var i := 0;
    while i < |rules|
      invariant 0 <= i <= |rules|
      invariant seen == WalkRules(rules[..i], ignoredTargets, makefile.fileName).seen
      invariant violations == WalkRules(rules[..i], ignoredTargets, makefile.fileName).violations
    {
      var rule := rules[i];
      assert rules[..i + 1][..i] == rules[..i] && rules[..i + 1][i] == rule;
      if rule.target == ".PHONY" || rule.target == "PHONY" {
      } else if rule.target in ignoredTargets {
      } else if rule.target in seen {
        var prevLine := seen[rule.target];
        violations := violations + [Duplicate(rule, prevLine, makefile.fileName)];
      } else {
        seen := seen[rule.target := rule.lineNumber];
      }
      i := i + 1;
    }
    assert rules[..i] == rules;
  }

  /** The comma-separated pieces of the `ignore` value, trimmed, keeping the non-empty ones. */
  method LoadIgnored(cfg: RuleConfig) returns (ignoredTargets: set<string>)
    ensures ignoredTargets == IgnoredTargets(cfg)
  {
    ignoredTargets := {};
    if "ignore" in cfg {
      var parts := Split(cfg["ignore"], ',');
      var i := 0;
      while i < |parts|
        invariant 0 <= i <= |parts|
        invariant ignoredTargets == IgnoredIn(parts[..i])
      {
        assert parts[..i + 1][..i] == parts[..i];
        var target := TrimSpace(parts[i]);
        if target != "" {
          ignoredTargets := ignoredTargets + {target};
        }
        i := i + 1;
      }
      assert parts[..i] == parts;
    }
  }

  // ---------------------------------------------------------------------------
  // Properties.

  /** A target is ignored exactly when it is a non-empty trimmed piece of the `ignore` value. */
  lemma {:induction false} IgnoredInIff(parts: seq<string>, x: string)
    ensures x in IgnoredIn(parts) <==> x != "" && exists k :: 0 <= k < |parts| && TrimSpace(parts[k]) == x
    decreases |parts|
  {
    if parts != [] {
      var init := parts[..|parts| - 1];
      IgnoredInIff(init, x);
      if exists k :: 0 <= k < |parts| && TrimSpace(parts[k]) == x {
        var k :| 0 <= k < |parts| && TrimSpace(parts[k]) == x;
        if k < |init| {
          assert init[k] == parts[k];
        }
      }
      if exists k :: 0 <= k < |init| && TrimSpace(init[k]) == x {
        var k :| 0 <= k < |init| && TrimSpace(init[k]) == x;
        assert parts[k] == init[k];
      }
    }
  }

  /**
   * The walk records a target exactly when some non-exempt rule defines it, and it
   * keeps the line of the first such rule: a later definition never overwrites it.
   */
  lemma {:induction false} SeenFirst(rules: seq<Rule>, ignored: set<string>, fileName: string, t: string)
    ensures var seen := WalkRules(rules, ignored, fileName).seen;
      && (t in seen <==> !Exempt(t, ignored) && exists k :: 0 <= k < |rules| && rules[k].target == t)
      && (t in seen ==> exists k :: ( && 0 <= k < |rules| && rules[k].target == t && seen[t] == rules[k].lineNumber
                                      && forall j :: 0 <= j < k ==> rules[j].target != t))
    decreases |rules|
  {
    if rules != [] {
      var init := rules[..|rules| - 1];
      SeenFirst(init, ignored, fileName, t);
      var w := WalkRules(init, ignored, fileName);
      if exists k :: 0 <= k < |init| && init[k].target == t {
        var k :| 0 <= k < |init| && init[k].target == t;
        assert rules[k] == init[k];
      }
      if t in w.seen {
        var k :| ( && 0 <= k < |init| && init[k].target == t && w.seen[t] == init[k].lineNumber
                   && forall j :: 0 <= j < k ==> init[j].target != t);
        assert rules[k] == init[k];
        forall j | 0 <= j < k ensures rules[j].target != t {
          assert rules[j] == init[j];
        }
      } else if !Exempt(t, ignored) && exists k :: 0 <= k < |rules| && rules[k].target == t {
        var last := |rules| - 1;
        forall j | 0 <= j < last ensures rules[j].target != t {
          assert rules[j] == init[j];
        }
      }
    }
  }

  /** The rules that are not exempt. */
  function CountChecked(rules: seq<Rule>, ignored: set<string>): nat {
    if rules == [] then 0
    else CountChecked(rules[..|rules| - 1], ignored) + (if Exempt(rules[|rules| - 1].target, ignored) then 0 else 1)
  }

  /**
   * Each non-exempt rule either records a new target or is reported, so the
   * reports number the non-exempt rules less the distinct non-exempt targets: the
   * sum over targets of their occurrences less one.
   */
  lemma {:induction false} CountReports(rules: seq<Rule>, ignored: set<string>, fileName: string)
    ensures var w := WalkRules(rules, ignored, fileName);
      |w.violations| + |w.seen| == CountChecked(rules, ignored)
    decreases |rules|
  {
    if rules != [] {
      CountReports(rules[..|rules| - 1], ignored, fileName);
    }
  }

  /**
   * Every report is for a repeat: a non-exempt rule whose target an earlier rule
   * first defined, at the repeat's line, citing that first line, as an error.
   */
  lemma {:induction false} ReportsAreRepeats(rules: seq<Rule>, ignored: set<string>, fileName: string)
    ensures forall v :: v in WalkRules(rules, ignored, fileName).violations ==>
      exists j, k :: ( && 0 <= j < k < |rules| && rules[j].target == rules[k].target
                       && !Exempt(rules[k].target, ignored)
                       && (forall i :: 0 <= i < j ==> rules[i].target != rules[k].target)
                       && v == Duplicate(rules[k], rules[j].lineNumber, fileName))
    decreases |rules|
  {
    if rules != [] {
      var init := rules[..|rules| - 1];
      var w := WalkRules(init, ignored, fileName);
      ReportsAreRepeats(init, ignored, fileName);
      forall v | v in WalkRules(rules, ignored, fileName).violations
        ensures exists j, k :: ( && 0 <= j < k < |rules| && rules[j].target == rules[k].target
                                 && !Exempt(rules[k].target, ignored)
                                 && (forall i :: 0 <= i < j ==> rules[i].target != rules[k].target)
                                 && v == Duplicate(rules[k], rules[j].lineNumber, fileName))
      {
        if v in w.violations {
          var j, k :| ( && 0 <= j < k < |init| && init[j].target == init[k].target
                        && !Exempt(init[k].target, ignored)
                        && (forall i :: 0 <= i < j ==> init[i].target != init[k].target)
                        && v == Duplicate(init[k], init[j].lineNumber, fileName));
          assert rules[j] == init[j] && rules[k] == init[k];
          forall i | 0 <= i < j ensures rules[i].target != rules[k].target {
            assert rules[i] == init[i];
          }
        } else {
          var r := rules[|rules| - 1];
          SeenFirst(init, ignored, fileName, r.target);
          var j :| ( && 0 <= j < |init| && init[j].target == r.target && w.seen[r.target] == init[j].lineNumber
                     && forall i :: 0 <= i < j ==> init[i].target != r.target);
          assert rules[j] == init[j];
          forall i | 0 <= i < j ensures rules[i].target != r.target {
            assert rules[i] == init[i];
          }
        }
      }
    }
  }

  /** `rules[j]` is the first definition of the target that `rules[k]` repeats. */
  ghost predicate FirstRepeat(rules: seq<Rule>, j: nat, k: nat) {
    && j < k < |rules| && rules[j].target == rules[k].target
    && forall i :: 0 <= i < j ==> rules[i].target != rules[k].target
  }

  /**
   * Every repeat is reported: a non-exempt rule whose target an earlier rule
   * defines gets the report that cites the line of that target's first definition.
   */
  lemma {:induction false} RepeatsAreReported(rules: seq<Rule>, ignored: set<string>, fileName: string, k: nat)
    requires k < |rules| && !Exempt(rules[k].target, ignored)
    requires exists j :: 0 <= j < k && rules[j].target == rules[k].target
    ensures exists j: nat :: (FirstRepeat(rules, j, k)
      && Duplicate(rules[k], rules[j].lineNumber, fileName) in WalkRules(rules, ignored, fileName).violations)
    decreases |rules|
  {
    var init := rules[..|rules| - 1];
    if k < |rules| - 1 {
      var j0 :| 0 <= j0 < k && rules[j0].target == rules[k].target;
      assert init[j0] == rules[j0] && init[k] == rules[k];
      RepeatsAreReported(init, ignored, fileName, k);
      var j: nat :| FirstRepeat(init, j, k)
        && Duplicate(init[k], init[j].lineNumber, fileName) in WalkRules(init, ignored, fileName).violations;
      FirstRepeatPrefix(rules, j, k);
      ViolationsGrow(rules, ignored, fileName);
    } else {
      var j := RepeatOfLast(rules, ignored, fileName);
    }
  }

  /** Being a first repeat is decided by the rules up to the repeat. */
  lemma FirstRepeatPrefix(rules: seq<Rule>, j: nat, k: nat)
    requires k < |rules| - 1
    ensures FirstRepeat(rules[..|rules| - 1], j, k) == FirstRepeat(rules, j, k)
  {
    var init := rules[..|rules| - 1];
    assert forall i :: 0 <= i <= k ==> init[i] == rules[i];
  }

  /** The last rule, when it repeats a non-exempt target, is the last report. */
  lemma RepeatOfLast(rules: seq<Rule>, ignored: set<string>, fileName: string) returns (j: nat)
    requires rules != [] && !Exempt(rules[|rules| - 1].target, ignored)
    requires exists j :: 0 <= j < |rules| - 1 && rules[j].target == rules[|rules| - 1].target
    ensures FirstRepeat(rules, j, |rules| - 1)
    ensures Duplicate(rules[|rules| - 1], rules[j].lineNumber, fileName) in WalkRules(rules, ignored, fileName).violations
  {
    var init := rules[..|rules| - 1];
    var w := WalkRules(init, ignored, fileName);
    var t := rules[|rules| - 1].target;
    var j0 :| 0 <= j0 < |rules| - 1 && rules[j0].target == t;
    assert init[j0] == rules[j0];
    SeenFirst(init, ignored, fileName, t);
    j :| ( && 0 <= j < |init| && init[j].target == t && w.seen[t] == init[j].lineNumber
           && forall i :: 0 <= i < j ==> init[i].target != t);
    assert forall i :: 0 <= i <= j ==> rules[i] == init[i];
    var vs := WalkRules(rules, ignored, fileName).violations;
    assert vs == w.violations + [Duplicate(rules[|rules| - 1], w.seen[t], fileName)];
    assert vs[|vs| - 1] in vs;
  }

  /** The walk only ever appends reports: those of a prefix stay in the full walk's reports. */
  lemma ViolationsGrow(rules: seq<Rule>, ignored: set<string>, fileName: string)
    requires rules != []
    ensures WalkRules(rules[..|rules| - 1], ignored, fileName).violations <= WalkRules(rules, ignored, fileName).violations
  {
  }

  /** Without repeated non-exempt targets there are no reports. */
  lemma {:induction false} NoRepeatsNoReports(rules: seq<Rule>, ignored: set<string>, fileName: string)
    requires forall j, k :: 0 <= j < k < |rules| && rules[j].target == rules[k].target ==> Exempt(rules[k].target, ignored)
    ensures WalkRules(rules, ignored, fileName).violations == []
    decreases |rules|
  {
    if rules != [] {
      var init := rules[..|rules| - 1];
      forall j, k | 0 <= j < k < |init| && init[j].target == init[k].target
        ensures Exempt(init[k].target, ignored)
      {
        assert rules[j] == init[j] && rules[k] == init[k];
      }
      NoRepeatsNoReports(init, ignored, fileName);
      var t := rules[|rules| - 1].target;
      SeenFirst(init, ignored, fileName, t);
    }
  }
}
