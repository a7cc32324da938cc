/**
 * The vocabulary the checks share (rules/rules.go): severities, one reported
 * violation, and the string-to-string configuration a check receives.
 */
module RuleBase {
  /** A severity is a string; the empty string means that the check left it unset. */
  type Severity = string

  const SeverityError: Severity := "error"
  const SeverityWarning: Severity := "warning"
  const SeverityInfo: Severity := "info"

  /** The three severities a configuration may name. */
  predicate IsSeverity(s: string) {
    s == SeverityError || s == SeverityWarning || s == SeverityInfo
  }

  /** One reported finding. */
  datatype RuleViolation = RuleViolation(rule: string, violation: string, fileName: string, lineNumber: int, severity: Severity)

  /** A check's configuration; a nil configuration reads like the empty map. */
  type RuleConfig = map<string, string>

  /** Go's map index: the value under `key`, or "" when there is none. */
  function Get(cfg: RuleConfig, key: string): (value: string)
    ensures key !in cfg ==> value == ""
  {
    if key in cfg then cfg[key] else ""
  }
}
