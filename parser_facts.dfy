/**
 * What the parser promises about single lines and about a whole parse: the
 * priority of the line patterns, the values a rule header and an assignment
 * yield, the recipe lines a header consumes, line numbers, counts and the shape of
 * the names and prerequisites it produces.
 */
module ParserFacts {
  import opened Wrappers
  import opened GoStrings
  import opened Patterns
  import opened Parser

  // ---------------------------------------------------------------------------
  // Single lines.

  /** A comment line yields nothing and the loop moves on to the next line. */
  lemma CommentStep(lines: seq<Line>, pos: nat, fileName: string)
    requires HasPrefix(LineAt(lines, pos), "#")
    ensures StepAt(lines, pos, fileName) == Step(None, pos + 1)
  {
  }

  /**
   * A line starting with a dot never yields a variable: it yields a rule with no
   * recipe at its own line number when the special-target pattern matches, and
   * nothing otherwise; either way the loop moves on one line.
   */
  lemma DotStep(lines: seq<Line>, pos: nat, fileName: string)
    requires HasPrefix(LineAt(lines, pos), ".")
    ensures var s := StepAt(lines, pos, fileName);
      && s.next == pos + 1
      && (s.entry.Some? <==> MatchSpecialTarget(LineAt(lines, pos)).Some?)
      && (s.entry.Some? ==>
            (s.entry.value.RuleEntry? && s.entry.value.rule.body == []
             && s.entry.value.rule.lineNumber == FirstLineNumber + pos))
  {
    assert LineAt(lines, pos)[0] == '.';
  }

  /** Name characters, blanks and special-name characters are none of them white space. */
  lemma NameIsTrimmed(name: string)
    requires name != [] && All(name, IsNameChar)
    ensures TrimSpace(name) == name
  {
    assert IsNameChar(name[0]) && IsNameChar(name[|name| - 1]);
    TrimSpaceOfTrimmed(name);
  }

  /** A special target line `.NAME<blanks>:REST` is the rule `.NAME` with the fields of REST as prerequisites. */
  lemma SpecialTargetLine(line: Line, name: string, w: string, rest: string)
    requires SpecialTargetShape(line, name, w, rest)
    ensures Classify(line) == SpecialTarget("." + name, Fields(TrimSpace(rest)))
  {
    SpecialTargetComplete(line, name, w, rest);
    var t := "." + name;
    assert IsSpecialNameChar(t[|t| - 1]) by { assert t[|t| - 1] == name[|name| - 1]; }
    TrimSpaceOfTrimmed(t);
    assert HasPrefix(line, ".") && !HasPrefix(line, "#") by { assert line[0] == '.'; }
    ClassifyDotLine(line);
  }

  /** Classify on a dotted line that the special-target pattern matches. */
  lemma ClassifyDotLine(line: Line)
    requires HasPrefix(line, ".") && !HasPrefix(line, "#") && MatchSpecialTarget(line).Some?
    ensures var h := MatchSpecialTarget(line).value;
      Classify(line) == SpecialTarget(TrimSpace(h.targets), Fields(TrimSpace(h.rest)))
  {
  }

  /** The seven assignment operators of the three assignment patterns. */
  predicate IsAssignmentOp(op: string) {
    IsSimpleOp(op) || op == "=" || IsOtherOp(op)
  }

  /** The operators whose variables the parser marks simply expanded: `:=`, `::=`, `:::=` and `!=`. */
  predicate SimplyExpandedOp(op: string) {
    IsSimpleOp(op) || op == "!="
  }

  /**
   * An assignment line that does not start with a dot is classified as a variable
   * named by its name run, holding the trimmed text after the operator, and simply
   * expanded exactly for `:=`, `::=`, `:::=` and `!=`. The patterns are tried in a
   * fixed order, and on such a line the earlier ones fail for the later operators.
   */
  lemma AssignmentLine(line: Line, n: nat, j: nat, k: nat, v: nat)
    requires AssignmentAt(line, n, j, k, v) && IsAssignmentOp(line[j..k])
    requires line[0] != '.'
    ensures Classify(line) == VariableLine(line[..n], TrimSpace(line[k..]), SimplyExpandedOp(line[j..k]))
  {
    var op := line[j..k];
    assert line[0] == line[..n][0];
    assert Classify(line) == ClassifyRuleOrVariable(line);
    NameIsTrimmed(line[..n]);
    AssignmentValueTrimmed(line, n, j, k, v);
    if IsSimpleOp(op) {
      SimpleVariableComplete(line, n, j, k, v);
    } else if op == "=" {
      ExpandedAssignmentLine(line, n, j, k, v);
    } else {
      OtherAssignmentLine(line, n, j, k, v);
    }
  }

  /** On a `=` assignment the simple pattern fails, so the expanded one decides. */
  lemma ExpandedAssignmentLine(line: Line, n: nat, j: nat, k: nat, v: nat)
    requires AssignmentAt(line, n, j, k, v) && line[j..k] == "="
    ensures ClassifyRuleOrVariable(line) == VariableLine(TrimSpace(line[..n]), TrimSpace(line[v..]), false)
  {
    assert line[j] == line[j..k][0];
    AssignmentRuns(line, n, j, k, v);
    assert MatchSimpleVariable(line).None?;
    ExpandedVariableComplete(line, n, j, k, v);
  }

  /** On a `?=`, `!=` or `+=` assignment the two earlier patterns fail, so the third decides. */
  lemma OtherAssignmentLine(line: Line, n: nat, j: nat, k: nat, v: nat)
    requires AssignmentAt(line, n, j, k, v) && IsOtherOp(line[j..k])
    ensures ClassifyRuleOrVariable(line) == VariableLine(TrimSpace(line[..n]), TrimSpace(line[v..]), line[j..k] == "!=")
  {
    var op := line[j..k];
    assert line[j] == op[0];
    AssignmentRuns(line, n, j, k, v);
    assert MatchSimpleVariable(line).None?;
    assert MatchExpandedVariable(line).None?;
    OtherVariableComplete(line, n, j, k, v);
    TrimSpaceOfTrimmed(op);
  }

  /** Every variable the classifier yields comes from an assignment line that does not start with a dot. */
  lemma VariableLineSound(line: Line)
    requires Classify(line).VariableLine?
    ensures line != [] && line[0] != '.'
    ensures exists n: nat, j: nat, k: nat, v: nat ::
      ( && AssignmentAt(line, n, j, k, v)
        && IsAssignmentOp(line[j..k])
        && Classify(line) == VariableLine(line[..n], TrimSpace(line[k..]), SimplyExpandedOp(line[j..k])))
  {
    if MatchSimpleVariable(line).Some? {
      SimpleVariableSound(line);
    } else if MatchExpandedVariable(line).Some? {
      ExpandedVariableSound(line);
    } else {
      OtherVariableSound(line);
    }
    var n: nat, j: nat, k: nat, v: nat :|
      && AssignmentAt(line, n, j, k, v)
      && IsAssignmentOp(line[j..k]);
    AssignmentLine(line, n, j, k, v);
  }

  /**
   * On a line of rule shape the expanded and other assignment patterns never match:
   * the character after the name and blanks is a target character or the colon.
   * The simple pattern fails too unless the colon is followed by more colons and `=`.
   */
  lemma RuleNotAssignment(line: Line, targets: string, rest: string)
    requires RuleShape(line, targets, rest)
    ensures MatchExpandedVariable(line).None? && MatchOtherVariable(line).None?
    ensures rest == [] || rest[0] != ':' ==> MatchSimpleVariable(line).None?
  {
    var t := |targets|;
    assert line[t] == ':';
    var n := SpanEnd(line, 0, IsNameChar);
    SpanEndStops(line, 0, t, IsNameChar);
    var j := SpanEnd(line, n, IsRegexSpace);
    SpanEndStops(line, n, t, IsRegexSpace);
    if j < t {
      assert line[j] == targets[j] && IsTargetChar(targets[j]);
      assert SpanEnd(line, j, IsColon) == j;
    } else if rest != [] && rest[0] != ':' {
      assert line[t + 1] == rest[0];
      SpanEndStops(line, j, t + 1, IsColon);
    }
  }

  /** The text after the colon, trimmed and split at its first `;`. */
  function HeaderDeps(rest: string): seq<string> {
    Fields(SplitInlineRecipe(TrimSpace(rest)).0)
  }

  /**
   * A line of rule shape whose targets do not start with a dot, and which the simple
   * assignment pattern does not claim, is a rule header: its targets trimmed, the
   * fields before the first `;` as prerequisites, and the trimmed text after it as an
   * inline recipe.
   */
  lemma RuleHeaderLine(line: Line, targets: string, rest: string)
    requires RuleShape(line, targets, rest) && targets[0] != '.'
    requires MatchSimpleVariable(line).None?
    ensures Classify(line) == RuleHeader(TrimSpace(targets), HeaderDeps(rest), SplitInlineRecipe(TrimSpace(rest)).1)
  {
    assert line[0] == targets[0];
    RuleNotAssignment(line, targets, rest);
    RuleComplete(line, targets, rest);
  }

  /** Every rule header the classifier yields comes from a line of rule shape. */
  lemma RuleHeaderSound(line: Line)
    requires Classify(line).RuleHeader?
    ensures exists targets: string, rest: string ::
      ( && RuleShape(line, targets, rest) && targets[0] != '.'
        && Classify(line) == RuleHeader(TrimSpace(targets), HeaderDeps(rest), SplitInlineRecipe(TrimSpace(rest)).1))
  {
    RuleSound(line);
    var h := MatchRule(line).value;
    assert line[0] == h.targets[0];
    assert RuleShape(line, h.targets, h.rest) && h.targets[0] != '.';
  }

  /**
   * The split of a header's text at its first `;`: the prerequisite part never holds
   * a `;`; without one the inline recipe is empty, and with one the text reads
   * BEFORE;AFTER with BEFORE free of `;`, the prerequisites coming from BEFORE and
   * the recipe being AFTER trimmed.
   */
  lemma InlineRecipeSplit(raw: string)
    ensures ';' !in SplitInlineRecipe(raw).0
    ensures ';' !in raw ==> SplitInlineRecipe(raw) == (raw, "")
    ensures ';' in raw ==> exists before: string, after: string ::
      ( && raw == before + ";" + after && ';' !in before
        && SplitInlineRecipe(raw) == (TrimSpace(before), TrimSpace(after)))
  {
    var idx := IndexOf(raw, ';');
    if idx != -1 {
      TrimSpaceKeepsAbsent(raw[..idx], ';');
      assert raw == raw[..idx] + ";" + raw[idx + 1..];
    }
  }

  // ---------------------------------------------------------------------------
  // Recipe lines.

  /**
   * The recipe a header collects has one entry per line up to BodyEnd, and the
   * line at BodyEnd, if there is one, does not start with a tab.
   */
  lemma {:induction false} BodyShape(lines: seq<Line>, from: nat)
    ensures var e := BodyEnd(lines, from);
      && |BodyLines(lines, from)| == e - from
      && (e == from || e <= |lines|)
      && (e < |lines| ==> !HasPrefix(lines[e], "\t"))
    decreases |lines| - from
  {
    if from < |lines| && MatchRuleBody(lines[from]).Some? {
      BodyShape(lines, from + 1);
    }
  }

  /** Each line the recipe spans starts with a tab and contributes itself, trimmed. */
  lemma {:induction false} BodyLineAt(lines: seq<Line>, from: nat, k: nat)
    requires from <= k < BodyEnd(lines, from)
    ensures k < |lines| && HasPrefix(lines[k], "\t")
    ensures k - from < |BodyLines(lines, from)| && BodyLines(lines, from)[k - from] == TrimSpace(lines[k])
    decreases k - from
  {
    assert from < |lines| && MatchRuleBody(lines[from]).Some?;
    BodyStep(lines, from);
    if k > from {
      BodyLineAt(lines, from + 1, k);
    }
  }

  // ---------------------------------------------------------------------------
  // The whole parse.

  /** Rules are numbered in non-decreasing order and variables in increasing order. */
  ghost predicate Ordered(m: Makefile) {
    && (forall a, b :: 0 <= a < b < |m.rules| ==> m.rules[a].lineNumber <= m.rules[b].lineNumber)
    && (forall a, b :: 0 <= a < b < |m.variables| ==> m.variables[a].lineNumber < m.variables[b].lineNumber)
  }

  /** Everything recorded so far lies before the line at `pos` (a header is numbered one below its line). */
  ghost predicate Before(m: Makefile, pos: nat) {
    && (forall i :: 0 <= i < |m.rules| ==> m.rules[i].lineNumber <= FirstLineNumber + pos - 1)
    && (forall i :: 0 <= i < |m.variables| ==> m.variables[i].lineNumber < FirstLineNumber + pos)
  }

  /** A rule as the parser produces it: from this file, with non-empty blank-free prerequisites. */
  ghost predicate RuleWellFormed(r: Rule, fileName: string) {
    && r.fileName == fileName
    && (forall k :: 0 <= k < |r.dependencies| ==> r.dependencies[k] != [] && NoSpace(r.dependencies[k]))
  }

  /** A variable as the parser produces it: from this file, never special, named by name characters not led by a dot. */
  ghost predicate VariableWellFormed(v: Variable, fileName: string) {
    && v.fileName == fileName
    && !v.specialVariable
    && v.name != [] && All(v.name, IsNameChar) && v.name[0] != '.'
  }

  ghost predicate WellFormed(m: Makefile) {
    && (forall i :: 0 <= i < |m.rules| ==> RuleWellFormed(m.rules[i], m.fileName))
    && (forall i :: 0 <= i < |m.variables| ==> VariableWellFormed(m.variables[i], m.fileName))
  }

  /** The fields of any text are prerequisites a well-formed rule may hold. */
  lemma FieldsAreDependencies(s: string, r: Rule, fileName: string)
    requires r.dependencies == Fields(s) && r.fileName == fileName
    ensures RuleWellFormed(r, fileName)
  {
    forall k | 0 <= k < |r.dependencies| ensures r.dependencies[k] != [] && NoSpace(r.dependencies[k]) {
      FieldWellFormed(s, k);
    }
  }

  /** What one step yields: a well-formed entry, numbered from its position. */
  lemma StepEntry(lines: seq<Line>, pos: nat, fileName: string)
    ensures var s := StepAt(lines, pos, fileName);
      s.entry.Some? ==> match s.entry.value
        case RuleEntry(r) =>
          RuleWellFormed(r, fileName) && FirstLineNumber + pos - 1 <= r.lineNumber <= FirstLineNumber + pos
        case VariableEntry(v) =>
          VariableWellFormed(v, fileName) && v.lineNumber == FirstLineNumber + pos
  {
    var line := LineAt(lines, pos);
    var s := StepAt(lines, pos, fileName);
    match Classify(line)
    case SpecialTarget(target, deps) =>
      FieldsAreDependencies(TrimSpace(MatchSpecialTarget(line).value.rest), s.entry.value.rule, fileName);
    case RuleHeader(target, deps, inline) =>
      FieldsAreDependencies(SplitInlineRecipe(TrimSpace(MatchRule(line).value.rest)).0, s.entry.value.rule, fileName);
    case VariableLine(name, value, simple) =>
      VariableLineSound(line);
      var n: nat, j: nat, k: nat, v: nat :|
        && AssignmentAt(line, n, j, k, v)
        && IsAssignmentOp(line[j..k])
        && Classify(line) == VariableLine(line[..n], TrimSpace(line[k..]), SimplyExpandedOp(line[j..k]));
      assert name == line[..n] && name[0] == line[0];
    case _ =>
  }

  /**
   * Which kind of line yields which entry, and its number: a rule header is numbered
   * one less than its line and also takes the recipe lines after it; a special
   * target and a variable carry their own line's number; anything else yields nothing.
   */
  lemma StepLineNumber(lines: seq<Line>, pos: nat, fileName: string)
    ensures var s := StepAt(lines, pos, fileName);
      match Classify(LineAt(lines, pos))
      case RuleHeader(target, deps, inline) =>
        && s.entry == Some(RuleEntry(Rule(target, deps, s.entry.value.rule.body, fileName, FirstLineNumber + pos - 1)))
        && s.entry.value.rule.body == (if inline != "" then [inline] else []) + BodyLines(lines, pos + 1)
        && s.next == BodyEnd(lines, pos + 1)
      case SpecialTarget(target, deps) =>
        s == Step(Some(RuleEntry(Rule(target, deps, [], fileName, FirstLineNumber + pos))), pos + 1)
      case VariableLine(name, value, simple) =>
        && s.entry.Some? && s.entry.value.VariableEntry?
        && s.entry.value.variable.name == name && s.entry.value.variable.assignment == value
        && s.entry.value.variable.lineNumber == FirstLineNumber + pos && s.next == pos + 1
      case _ => s == Step(None, pos + 1)
  {
  }

  /** Past the last line the scanner reports "", which yields nothing. */
  lemma StepPastEnd(lines: seq<Line>, pos: nat, fileName: string)
    requires pos >= |lines|
    ensures StepAt(lines, pos, fileName).entry.None?
  {
    assert LineAt(lines, pos) == "";
    assert MatchRule("").None?;
  }

  /** Appending a step's entry keeps the order, the bound and the well-formedness. */
  lemma AddEntry(m: Makefile, lines: seq<Line>, pos: nat)
    requires Ordered(m) && Before(m, pos) && WellFormed(m)
    ensures var s := StepAt(lines, pos, m.fileName); var m' := Add(m, s.entry);
      && m'.fileName == m.fileName
      && Ordered(m') && Before(m', s.next) && WellFormed(m')
      && |m'.rules| + |m'.variables| <= |m.rules| + |m.variables| + 1
  {
    StepEntry(lines, pos, m.fileName);
  }

  /** The parse loop from `pos` on keeps the order and well-formedness and adds at most one entry per remaining line. */
  lemma {:induction false} ParseFromFacts(lines: seq<Line>, pos: nat, acc: Makefile)
    requires pos <= |lines|
    requires Ordered(acc) && Before(acc, pos) && WellFormed(acc)
    ensures var m := ParseFrom(lines, pos, acc);
      && m.fileName == acc.fileName
      && Ordered(m) && WellFormed(m)
      && |m.rules| + |m.variables| <= |acc.rules| + |acc.variables| + |lines| - pos
    decreases |lines| - pos
  {
    var s := StepAt(lines, pos, acc.fileName);
    AddEntry(acc, lines, pos);
    if pos == |lines| {
      StepPastEnd(lines, pos, acc.fileName);
    }
    if s.next < |lines| {
      ParseFromFacts(lines, s.next, Add(acc, s.entry));
    }
  }

  /**
   * A parsed Makefile names its file, lists rules in non-decreasing and variables in
   * increasing line order, holds only well-formed rules and variables, and has at
   * most one entry per line of the file.
   */
  lemma ParseLinesFacts(fileName: string, lines: seq<Line>)
    ensures var m := ParseLines(fileName, lines);
      && m.fileName == fileName
      && Ordered(m) && WellFormed(m)
      && |m.rules| + |m.variables| <= |lines|
  {
    ParseFromFacts(lines, 0, Makefile(fileName, [], []));
  }
}
