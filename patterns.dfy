/**
 * The six line patterns of parser/parser.go, written as string functions.
 *
 * Each pattern is anchored at the start of the line and every capture group is
 * followed by a character its own class cannot contain, so the leftmost-first
 * match of Go's RE2 engine is unique; each function below returns the capture
 * groups of that match, or None when the pattern does not match. Lines never
 * contain a newline (the scanner splits on it), so `.` matches any character.
 */
module Patterns {
  import opened Wrappers
  import opened GoStrings

  /** A line as the scanner yields it: without its line terminator. */
  type Line = s: string | '\n' !in s

  /** RE2's `\s`: tab, newline, form feed, carriage return and space (no vertical tab). */
  predicate IsRegexSpace(c: char) {
    c == '\t' || c == '\n' || c == '\U{000C}' || c == '\r' || c == ' '
  }

  predicate IsLetter(c: char) { ('A' <= c <= 'Z') || ('a' <= c <= 'z') }

  predicate IsDigit(c: char) { '0' <= c <= '9' }

  /** `[A-Za-z0-9_.-]`: a character of a variable name. */
  predicate IsNameChar(c: char) { IsLetter(c) || IsDigit(c) || c == '_' || c == '.' || c == '-' }

  /** `[A-Za-z0-9_.%/\-$(){}\s]`: a character of a rule header's target list. */
  predicate IsTargetChar(c: char) {
    IsNameChar(c) || c == '%' || c == '/' || c == '$' || c == '(' || c == ')' || c == '{' || c == '}'
    || IsRegexSpace(c)
  }

  /** `[A-Za-z_]`: a character of a special target's name after its dot. */
  predicate IsSpecialNameChar(c: char) { IsLetter(c) || c == '_' }

  predicate IsColon(c: char) { c == ':' }

  predicate IsTab(c: char) { c == '\t' }

  /** RE2 white space is white space for strings.TrimSpace and strings.Fields too. */
  lemma RegexSpaceIsSpace(w: string)
    requires All(w, IsRegexSpace)
    ensures AllSpace(w)
  {
    forall k | 0 <= k < |w| ensures IsSpace(w[k]) {
      assert IsRegexSpace(w[k]);
    }
  }

  /** The groups of an assignment pattern: the name, the operator and the value. */
  datatype Assignment = Assignment(name: string, op: string, value: string)

  /** The groups of the rule-header and special-target patterns: the target text and what follows the colon. */
  datatype Header = Header(targets: string, rest: string)

  /** `:=`, `::=` or `:::=`. */
  predicate IsSimpleOp(op: string) {
    2 <= |op| <= 4 && op[|op| - 1] == '=' && All(op[..|op| - 1], IsColon)
  }

  /** `?=`, `!=` or `+=`. */
  predicate IsOtherOp(op: string) {
    |op| == 2 && (op[0] == '?' || op[0] == '!' || op[0] == '+') && op[1] == '='
  }

  /**
   * The line splits at n <= j <= k <= v into a name line[..n], blanks line[n..j],
   * the operator line[j..k], blanks line[k..v] and the value line[v..], which does
   * not start with a blank (the `\s*` in front of the value group is greedy).
   */
  ghost predicate AssignmentAt(line: string, n: nat, j: nat, k: nat, v: nat) {
    && 0 < n <= j <= k <= v <= |line|
    && All(line[..n], IsNameChar)
    && All(line[n..j], IsRegexSpace)
    && All(line[k..v], IsRegexSpace)
    && (v == |line| || !IsRegexSpace(line[v]))
  }

  /** Where the value group of an assignment starts, given the end of its operator. */
  function ValueStart(line: string, opEnd: nat): (v: nat)
    requires opEnd <= |line|
    ensures opEnd <= v <= |line|
  {
    SpanEnd(line, opEnd, IsRegexSpace)
  }

  /** `^([A-Za-z0-9_.-]+)\s*:{1,3}=\s*(.*)` (parser.go line 65). */
  function MatchSimpleVariable(line: Line): (m: Option<Assignment>)
  {
    var n := SpanEnd(line, 0, IsNameChar);
    var j := SpanEnd(line, n, IsRegexSpace);
    var c := SpanEnd(line, j, IsColon);
    if 0 < n && 1 <= c - j <= 3 && c < |line| && line[c] == '=' then
      Some(Assignment(line[..n], line[j..c + 1], line[ValueStart(line, c + 1)..]))
    else None
  }

  /** `^([A-Za-z0-9_.-]+)\s*=\s*(.*)` (parser.go line 70). */
  function MatchExpandedVariable(line: Line): (m: Option<Assignment>)
  {
    var n := SpanEnd(line, 0, IsNameChar);
    var j := SpanEnd(line, n, IsRegexSpace);
    if 0 < n && j < |line| && line[j] == '=' then
      Some(Assignment(line[..n], line[j..j + 1], line[ValueStart(line, j + 1)..]))
    else None
  }

  /** `^([A-Za-z0-9_.-]+)\s*([?!+]=)\s*(.*)` (parser.go line 77). */
  function MatchOtherVariable(line: Line): (m: Option<Assignment>)
  {
    var n := SpanEnd(line, 0, IsNameChar);
    var j := SpanEnd(line, n, IsRegexSpace);
    if 0 < n && j + 1 < |line| && (line[j] == '?' || line[j] == '!' || line[j] == '+') && line[j + 1] == '=' then
      Some(Assignment(line[..n], line[j..j + 2], line[ValueStart(line, j + 2)..]))
    else None
  }

  /** `^([A-Za-z0-9_.%/\-$(){}\s]+)\s*:(\s*[^=].*)?$` (parser.go line 54). */
  function MatchRule(line: Line): (m: Option<Header>)
  {
    var i := SpanEnd(line, 0, IsTargetChar);
    if 0 < i < |line| && line[i] == ':' && (i + 1 == |line| || line[i + 1] != '=') then
      Some(Header(line[..i], line[i + 1..]))
    else None
  }

  /** The line reads as a target list, a colon, and a rest that does not start with `=`. */
  ghost predicate RuleShape(line: string, targets: string, rest: string) {
    && line == targets + ":" + rest
    && targets != [] && All(targets, IsTargetChar)
    && (rest == [] || rest[0] != '=')
  }

  /** `^(\.[A-Za-z_]+)\s*:(.*)` (parser.go line 82). */
  function MatchSpecialTarget(line: Line): (m: Option<Header>)
  {
    if line == [] || line[0] != '.' then None
    else
      var n := SpanEnd(line, 1, IsSpecialNameChar);
      var j := SpanEnd(line, n, IsRegexSpace);
      if 1 < n && j < |line| && line[j] == ':' then Some(Header(line[..n], line[j + 1..]))
      else None
  }

  /** The line reads as a dot, a name of letters and underscores, blanks, a colon and a rest. */
  ghost predicate SpecialTargetShape(line: string, name: string, w: string, rest: string) {
    && line == "." + name + w + ":" + rest
    && name != [] && All(name, IsSpecialNameChar)
    && All(w, IsRegexSpace)
  }

  /**
   * `^\t+(.*)` (parser.go line 59): a recipe line starts with a tab, and the parser
   * stores the capture trimmed, which is the whole line trimmed.
   */
  function MatchRuleBody(line: Line): (m: Option<string>)
    ensures m.Some? <==> HasPrefix(line, "\t")
    ensures m.Some? ==> TrimSpace(m.value) == TrimSpace(line)
  {
    if line != [] && line[0] == '\t' then
      var t := SpanEnd(line, 0, IsTab);
      RegexSpaceIsSpace(line[0..t]);
      assert line == line[0..t] + line[t..];
      TrimSpaceSkipsLeading(line[0..t], line[t..]);
      Some(line[t..])
    else None
  }

  // ---------------------------------------------------------------------------
  // Each matcher against the shape it recognises, in both directions.

  /**
   * The name and blank runs of an assignment end where AssignmentAt puts them when
   * the operator starts with a character that is neither a name character nor blank.
   */
  lemma AssignmentRuns(line: string, n: nat, j: nat, k: nat, v: nat)
    requires AssignmentAt(line, n, j, k, v) && j < k
    requires !IsNameChar(line[j]) && !IsRegexSpace(line[j])
    ensures SpanEnd(line, 0, IsNameChar) == n
    ensures SpanEnd(line, n, IsRegexSpace) == j
    ensures ValueStart(line, k) == v
  {
    assert line[0..n] == line[..n];
    if n < j {
      assert line[n] == line[n..j][0];
    }
    SpanEndUnique(line, 0, n, IsNameChar);
    SpanEndUnique(line, n, j, IsRegexSpace);
    SpanEndUnique(line, k, v, IsRegexSpace);
  }

  /** A simple assignment match is exactly an assignment split whose operator is `:=`, `::=` or `:::=`. */
  lemma SimpleVariableComplete(line: Line, n: nat, j: nat, k: nat, v: nat)
    requires AssignmentAt(line, n, j, k, v) && IsSimpleOp(line[j..k])
    ensures MatchSimpleVariable(line) == Some(Assignment(line[..n], line[j..k], line[v..]))
  {
    var op := line[j..k];
    var c := k - 1;
    assert line[j..c] == op[..|op| - 1] && line[c] == op[|op| - 1];
    assert line[j] == op[0] == op[..|op| - 1][0];
    AssignmentRuns(line, n, j, k, v);
    SpanEndUnique(line, j, c, IsColon);
  }

  lemma SimpleVariableSound(line: Line)
    requires MatchSimpleVariable(line).Some?
    ensures exists n: nat, j: nat, k: nat, v: nat ::
      ( && AssignmentAt(line, n, j, k, v)
        && IsSimpleOp(line[j..k])
        && MatchSimpleVariable(line).value == Assignment(line[..n], line[j..k], line[v..]))
  {
    var n := SpanEnd(line, 0, IsNameChar);
    var j := SpanEnd(line, n, IsRegexSpace);
    var c := SpanEnd(line, j, IsColon);
    var v := ValueStart(line, c + 1);
    assert line[0..n] == line[..n];
    assert line[j..c + 1][..c - j] == line[j..c];
    assert AssignmentAt(line, n, j, c + 1, v) && IsSimpleOp(line[j..c + 1]);
  }

  /** An expanded assignment match is exactly an assignment split whose operator is `=`. */
  lemma ExpandedVariableComplete(line: Line, n: nat, j: nat, k: nat, v: nat)
    requires AssignmentAt(line, n, j, k, v) && line[j..k] == "="
    ensures MatchExpandedVariable(line) == Some(Assignment(line[..n], "=", line[v..]))
  {
    assert line[j] == line[j..k][0];
    AssignmentRuns(line, n, j, k, v);
  }

  lemma ExpandedVariableSound(line: Line)
    requires MatchExpandedVariable(line).Some?
    ensures exists n: nat, j: nat, k: nat, v: nat ::
      ( && AssignmentAt(line, n, j, k, v)
        && line[j..k] == "="
        && MatchExpandedVariable(line).value == Assignment(line[..n], "=", line[v..]))
  {
    var n := SpanEnd(line, 0, IsNameChar);
    var j := SpanEnd(line, n, IsRegexSpace);
    var v := ValueStart(line, j + 1);
    assert line[0..n] == line[..n];
    assert AssignmentAt(line, n, j, j + 1, v) && line[j..j + 1] == "=";
  }

  /** An other-assignment match is exactly an assignment split whose operator is `?=`, `!=` or `+=`. */
  lemma OtherVariableComplete(line: Line, n: nat, j: nat, k: nat, v: nat)
    requires AssignmentAt(line, n, j, k, v) && IsOtherOp(line[j..k])
    ensures MatchOtherVariable(line) == Some(Assignment(line[..n], line[j..k], line[v..]))
  {
    assert line[j] == line[j..k][0] && line[j + 1] == line[j..k][1];
    AssignmentRuns(line, n, j, k, v);
  }

  lemma OtherVariableSound(line: Line)
    requires MatchOtherVariable(line).Some?
    ensures exists n: nat, j: nat, k: nat, v: nat ::
      ( && AssignmentAt(line, n, j, k, v)
        && IsOtherOp(line[j..k])
        && MatchOtherVariable(line).value == Assignment(line[..n], line[j..k], line[v..]))
  {
    var n := SpanEnd(line, 0, IsNameChar);
    var j := SpanEnd(line, n, IsRegexSpace);
    var v := ValueStart(line, j + 2);
    assert line[0..n] == line[..n];
    assert AssignmentAt(line, n, j, j + 2, v) && IsOtherOp(line[j..j + 2]);
  }

  /** The rule-header pattern matches exactly the lines of rule shape, splitting them at the first colon. */
  lemma RuleComplete(line: Line, targets: string, rest: string)
    requires RuleShape(line, targets, rest)
    ensures MatchRule(line) == Some(Header(targets, rest))
  {
    assert line[0..|targets|] == targets;
    assert line[|targets|] == ':';
    SpanEndUnique(line, 0, |targets|, IsTargetChar);
    assert line[|targets| + 1..] == rest;
  }

  lemma RuleSound(line: Line)
    requires MatchRule(line).Some?
    ensures var h := MatchRule(line).value; RuleShape(line, h.targets, h.rest)
  {
    var i := SpanEnd(line, 0, IsTargetChar);
    assert line == line[..i] + ":" + line[i + 1..];
    assert line[0..i] == line[..i];
  }

  /** The special-target pattern matches exactly a dot, a name, blanks and a colon. */
  lemma SpecialTargetComplete(line: Line, name: string, w: string, rest: string)
    requires SpecialTargetShape(line, name, w, rest)
    ensures MatchSpecialTarget(line) == Some(Header("." + name, rest))
  {
    var n := 1 + |name|;
    assert line[1..n] == name;
    if w != [] {
      assert line[n] == w[0];
      assert IsRegexSpace(w[0]);
    } else {
      assert line[n] == ':';
    }
    SpanEndUnique(line, 1, n, IsSpecialNameChar);
    assert line[n..n + |w|] == w;
    assert line[n + |w|] == ':';
    SpanEndUnique(line, n, n + |w|, IsRegexSpace);
    assert line[..n] == "." + name;
    assert line[n + |w| + 1..] == rest;
  }

  lemma SpecialTargetSound(line: Line)
    requires MatchSpecialTarget(line).Some?
    ensures var h := MatchSpecialTarget(line).value;
      h.targets[..1] == "." && exists w :: SpecialTargetShape(line, h.targets[1..], w, h.rest)
  {
    var n := SpanEnd(line, 1, IsSpecialNameChar);
    var j := SpanEnd(line, n, IsRegexSpace);
    var h := MatchSpecialTarget(line).value;
    assert h.targets[1..] == line[1..n];
    assert line == "." + line[1..n] + line[n..j] + ":" + line[j + 1..];
    assert SpecialTargetShape(line, h.targets[1..], line[n..j], h.rest);
  }

  /** No assignment pattern matches a line that starts with a dot-free non-name character such as `#` or a tab. */
  lemma AssignmentNeedsName(line: Line)
    requires line == [] || !IsNameChar(line[0])
    ensures MatchSimpleVariable(line).None?
    ensures MatchExpandedVariable(line).None?
    ensures MatchOtherVariable(line).None?
  {
  }

  /** The value an assignment stores, TrimSpace of its value group, is TrimSpace of everything after the operator. */
  lemma AssignmentValueTrimmed(line: string, n: nat, j: nat, k: nat, v: nat)
    requires AssignmentAt(line, n, j, k, v)
    ensures TrimSpace(line[v..]) == TrimSpace(line[k..])
  {
    assert line[k..] == line[k..v] + line[v..];
    RegexSpaceIsSpace(line[k..v]);
    TrimSpaceSkipsLeading(line[k..v], line[v..]);
  }
}
