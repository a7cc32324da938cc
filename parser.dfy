/**
 * The structural parser of parser/parser.go: a line scanner, the classification of
 * one line in a fixed priority order, and the loop that turns a file's lines into a
 * Makefile value of rules and variables in source order.
 *
 * The pure functions LineAt, Classify, StepAt and ParseFrom say what one step and
 * the whole parse produce; the methods Parse and ParseRuleOrVariable drive a
 * MakefileScanner object as the Go code does and are proved to produce exactly that.
 */
module Parser {
  import opened Wrappers
  import opened GoStrings
  import opened Patterns

  /** A Make rule: its target text, prerequisites, recipe lines and where it was found. */
  datatype Rule = Rule(target: string, dependencies: seq<string>, body: seq<string>, fileName: string, lineNumber: int)

  /** A Make variable assignment. */
  datatype Variable = Variable(
    name: string, simplyExpanded: bool, assignment: string, specialVariable: bool,
    fileName: string, lineNumber: int)

  /** A parsed Makefile: the rules and the variables, each in the order of the file. */
  datatype Makefile = Makefile(fileName: string, rules: seq<Rule>, variables: seq<Variable>)

  /** What one classification step hands back: a rule or a variable. */
  datatype Entry = RuleEntry(rule: Rule) | VariableEntry(variable: Variable)

  /** One step of the parse: the entry it yields, if any, and the position of the next line to classify. */
  datatype Step = Step(entry: Option<Entry>, next: nat)

  /** The line number the scanner reports for the first line of a file. */
  const FirstLineNumber: int := 1

  /** The text the scanner reports at position `pos`: the line, or "" once the input is exhausted. */
  function LineAt(lines: seq<Line>, pos: nat): Line {
    if pos < |lines| then lines[pos] else ""
  }

  /**
   * The line cursor the parser drives. It stands for the scanner over an opened
   * file: `lines` are the file's lines without their terminators, `pos` is the index
   * of the current line and `lineNumber` the number the scanner reports for it.
   */
  class MakefileScanner {
    const lines: seq<Line>
    const fileName: string
    var pos: nat
    var lineNumber: int
    var finished: bool

    ghost predicate Valid()
      reads this
    {
      lineNumber == FirstLineNumber + pos && finished == (pos >= |lines|)
    }

    /** Positions the cursor on the first line of the file. */
    constructor (fileName: string, lines: seq<Line>)
      ensures Valid()
      ensures this.fileName == fileName && this.lines == lines && pos == 0
    {
      this.fileName := fileName;
      this.lines := lines;
      pos := 0;
      lineNumber := FirstLineNumber;
      finished := |lines| == 0;
    }

    /** The current line, unmodified; "" once the input is exhausted. */
    function Text(): (t: Line)
      reads this
      requires Valid()
      ensures t == LineAt(lines, pos)
      ensures finished ==> t == ""
    {
      if finished then "" else lines[pos]
    }

    /** Advances one line; `finished` is set once the cursor has passed the last line. */
    method Scan()
      requires Valid()
      modifies this
      ensures Valid()
      ensures pos == old(pos) + 1 && lineNumber == old(lineNumber) + 1
      ensures finished == (old(pos) + 1 >= |lines|)
    {
      pos := pos + 1;
      lineNumber := lineNumber + 1;
      finished := pos >= |lines|;
    }
  }

  // ---------------------------------------------------------------------------
  // Classification of one line.

  /** How one line is classified, with the values the parser derives from its captures. */
  datatype LineKind =
    | Comment
    | SpecialTarget(target: string, dependencies: seq<string>)
    | SkippedDot
    | VariableLine(name: string, assignment: string, simplyExpanded: bool)
    | RuleHeader(target: string, dependencies: seq<string>, inlineRecipe: string)
    | Unmatched

  /**
   * A rule header's text after the colon, already trimmed, split at its first `;`:
   * the prerequisites are the fields before it and the inline recipe is the trimmed
   * text after it ("" when there is no `;`).
   */
  function SplitInlineRecipe(rawDeps: string): (string, string) {
    var idx := IndexOf(rawDeps, ';');
    if idx != -1 then (TrimSpace(rawDeps[..idx]), TrimSpace(rawDeps[idx + 1..]))
    else (rawDeps, "")
  }

  /** The three assignment patterns, the rule-header pattern and the fallback, in this order. */
  function ClassifyRuleOrVariable(line: Line): LineKind {
    match MatchSimpleVariable(line)
    case Some(a) => VariableLine(TrimSpace(a.name), TrimSpace(a.value), true)
    case None =>
      match MatchExpandedVariable(line)
      case Some(a) => VariableLine(TrimSpace(a.name), TrimSpace(a.value), false)
      case None =>
        match MatchOtherVariable(line)
        case Some(a) => VariableLine(TrimSpace(a.name), TrimSpace(a.value), TrimSpace(a.op) == "!=")
        case None =>
          match MatchRule(line)
          case Some(h) =>
            var (deps, inline) := SplitInlineRecipe(TrimSpace(h.rest));
            RuleHeader(TrimSpace(h.targets), Fields(deps), inline)
          case None => Unmatched
  }

  /** The full priority order of the parse loop: comment, dotted line, then the patterns above. */
  function Classify(line: Line): LineKind {
    if HasPrefix(line, "#") then Comment
    else if HasPrefix(line, ".") then
      match MatchSpecialTarget(line)
      case Some(h) => SpecialTarget(TrimSpace(h.targets), Fields(TrimSpace(h.rest)))
      case None => SkippedDot
    else ClassifyRuleOrVariable(line)
  }

  /** The position of the first line at or after `from` that is not a recipe line. */
  function BodyEnd(lines: seq<Line>, from: nat): (e: nat)
    ensures from <= e
    decreases |lines| - from
  {
    if from < |lines| && MatchRuleBody(lines[from]).Some? then BodyEnd(lines, from + 1) else from
  }

  /** The recipe lines starting at `from`, each trimmed. */
  function BodyLines(lines: seq<Line>, from: nat): seq<string>
    decreases |lines| - from
  {
    if from < |lines| && MatchRuleBody(lines[from]).Some? then [TrimSpace(lines[from])] + BodyLines(lines, from + 1)
    else []
  }

  /** A recipe line at `p` is the next body entry, and the body goes on after it. */
  lemma BodyStep(lines: seq<Line>, p: nat)
    requires p < |lines| && MatchRuleBody(lines[p]).Some?
    ensures BodyLines(lines, p) == [TrimSpace(lines[p])] + BodyLines(lines, p + 1)
    ensures BodyEnd(lines, p) == BodyEnd(lines, p + 1)
  {
  }

  /**
   * What one iteration of the parse loop yields for a line at `pos` of kind `kind`,
   * and the position of the next line it classifies: a rule header also consumes
   * the recipe lines after it and is numbered one less than the line it is on.
   */
  function KindStep(kind: LineKind, lines: seq<Line>, pos: nat, fileName: string): (s: Step)
    ensures s.next > pos
  {
    match kind
    case Comment => Step(None, pos + 1)
    case SkippedDot => Step(None, pos + 1)
    case Unmatched => Step(None, pos + 1)
    case SpecialTarget(target, deps) =>
      Step(Some(RuleEntry(Rule(target, deps, [], fileName, FirstLineNumber + pos))), pos + 1)
    case VariableLine(name, value, simple) =>
      Step(Some(VariableEntry(Variable(name, simple, value, false, fileName, FirstLineNumber + pos))), pos + 1)
    case RuleHeader(target, deps, inline) =>
      var body := (if inline != "" then [inline] else []) + BodyLines(lines, pos + 1);
      Step(Some(RuleEntry(Rule(target, deps, body, fileName, FirstLineNumber + pos - 1))), BodyEnd(lines, pos + 1))
  }

  /** One iteration of the parse loop at position `pos`. */
  function StepAt(lines: seq<Line>, pos: nat, fileName: string): Step {
    KindStep(Classify(LineAt(lines, pos)), lines, pos, fileName)
  }

  /** Appends an entry to the rules or the variables. */
  function Add(m: Makefile, e: Option<Entry>): Makefile {
    match e
    case None => m
    case Some(RuleEntry(r)) => m.(rules := m.rules + [r])
    case Some(VariableEntry(v)) => m.(variables := m.variables + [v])
  }

  /** The parse loop from position `pos` on, with `acc` holding what the earlier steps produced. */
  function ParseFrom(lines: seq<Line>, pos: nat, acc: Makefile): Makefile
    decreases |lines| - pos
  {
    var s := StepAt(lines, pos, acc.fileName);
    var acc' := Add(acc, s.entry);
    if s.next < |lines| then ParseFrom(lines, s.next, acc') else acc'
  }

  /** The Makefile that parsing the lines of the file `fileName` yields. */
  function ParseLines(fileName: string, lines: seq<Line>): Makefile {
    ParseFrom(lines, 0, Makefile(fileName, [], []))
  }

  // ---------------------------------------------------------------------------
  // The imperative parser.

  /**
   * The recipe loop of parseRuleOrVariable: appends each following tab-prefixed
   * line, trimmed, and stops on the first line that is not one, leaving it current.
   */
  method CollectRecipe(scanner: MakefileScanner, prefix: seq<string>) returns (ruleBody: seq<string>)
    requires scanner.Valid()
    modifies scanner
    ensures scanner.Valid()
    ensures scanner.pos == BodyEnd(scanner.lines, old(scanner.pos))
    ensures ruleBody == prefix + BodyLines(scanner.lines, old(scanner.pos))
  {
    ghost var lines := scanner.lines;
    ghost var start := scanner.pos;
    ruleBody := prefix;
    var bodyMatch := MatchRuleBody(scanner.Text());
    while bodyMatch.Some?
      invariant scanner.Valid() && scanner.lines == lines
      invariant start <= scanner.pos
      invariant bodyMatch == MatchRuleBody(LineAt(lines, scanner.pos))
      invariant BodyEnd(lines, start) == BodyEnd(lines, scanner.pos)
      invariant prefix + BodyLines(lines, start) == ruleBody + BodyLines(lines, scanner.pos)
      decreases |lines| - scanner.pos
    {
      ghost var p := scanner.pos;
      var x := TrimSpace(bodyMatch.value);
      assert p < |lines| && x == TrimSpace(lines[p]);
      BodyStep(lines, p);
      ghost var before := ruleBody;
      ruleBody := ruleBody + [x];
      calc {
        prefix + BodyLines(lines, start);
        before + BodyLines(lines, p);
        before + ([x] + BodyLines(lines, p + 1));
        ruleBody + BodyLines(lines, p + 1);
      }
      assert BodyEnd(lines, start) == BodyEnd(lines, p + 1);
      scanner.Scan();
      bodyMatch := MatchRuleBody(scanner.Text());
      assert BodyEnd(lines, start) == BodyEnd(lines, scanner.pos);
    }
  }

  lemma HeaderStep(target: string, deps: seq<string>, inline: string, lines: seq<Line>, pos: nat, fileName: string)
    ensures KindStep(RuleHeader(target, deps, inline), lines, pos, fileName)
      == Step(Some(RuleEntry(Rule(target, deps, (if inline != "" then [inline] else []) + BodyLines(lines, pos + 1),
                                  fileName, FirstLineNumber + pos - 1))),
              BodyEnd(lines, pos + 1))
  {
  }

  /** The strings of `ss` that are not empty, in order. */
  function NonEmpty(ss: seq<string>): (r: seq<string>)
    ensures |r| <= |ss|
  {
    if ss == [] then []
    else (if ss[0] != "" then [ss[0]] else []) + NonEmpty(ss[1..])
  }

  /** Fields never yields an empty string, so filtering them out keeps every field. */
  lemma {:induction false} FieldsHaveNoEmpty(s: string)
    ensures NonEmpty(Fields(s)) == Fields(s)
  {
    var fs := Fields(s);
    forall k | 0 <= k < |fs| ensures fs[k] != "" {
      FieldWellFormed(s, k);
    }
    NonEmptyKeepsNonEmpty(fs);
  }

  lemma {:induction false} NonEmptyKeepsNonEmpty(ss: seq<string>)
    requires forall k :: 0 <= k < |ss| ==> ss[k] != ""
    ensures NonEmpty(ss) == ss
    decreases |ss|
  {
    if ss != [] {
      NonEmptyKeepsNonEmpty(ss[1..]);
      assert ss == [ss[0]] + ss[1..];
    }
  }

  /** The loop that keeps the non-empty prerequisites. */
  method DropEmpty(fields: seq<string>) returns (deps: seq<string>)
    ensures deps == NonEmpty(fields)
  {
    deps := [];
    var i := 0;
    while i < |fields|
      invariant 0 <= i <= |fields|
      invariant NonEmpty(fields) == deps + NonEmpty(fields[i..])
    {
      assert fields[i..][1..] == fields[i + 1..];
      if fields[i] != "" {
        deps := deps + [fields[i]];
      }
      i := i + 1;
    }
  }

  /**
   * The rule-header branch of parseRuleOrVariable: the header's line number, the
   * prerequisites before the first `;`, the inline recipe after it, and the recipe
   * lines that follow the header.
   */
  method ParseRuleHeader(scanner: MakefileScanner, header: Header) returns (rule: Rule)
    requires scanner.Valid()
    modifies scanner
    ensures scanner.Valid()
    ensures var (rawDeps, inline) := SplitInlineRecipe(TrimSpace(header.rest));
      KindStep(RuleHeader(TrimSpace(header.targets), Fields(rawDeps), inline), scanner.lines, old(scanner.pos), scanner.fileName)
        == Step(Some(RuleEntry(rule)), scanner.pos)
  {
    ghost var lines := scanner.lines;
    ghost var pos := scanner.pos;
    var beginLineNumber := scanner.lineNumber - 1;
    scanner.Scan();

    var (rawDeps, inlineRecipe) := SplitInlineRecipe(TrimSpace(header.rest));

    var deps := DropEmpty(Fields(rawDeps));
    FieldsHaveNoEmpty(rawDeps);

    var ruleBody: seq<string> := [];
    if inlineRecipe != "" {
      ruleBody := ruleBody + [inlineRecipe];
    }
    ghost var prefix := ruleBody;
    assert prefix == (if inlineRecipe != "" then [inlineRecipe] else []);
    assert scanner.pos == pos + 1 && beginLineNumber == FirstLineNumber + pos - 1;
    ruleBody := CollectRecipe(scanner, ruleBody);
    assert scanner.pos == BodyEnd(lines, pos + 1) && ruleBody == prefix + BodyLines(lines, pos + 1);
    rule := Rule(TrimSpace(header.targets), deps, ruleBody, scanner.fileName, beginLineNumber);
    HeaderStep(TrimSpace(header.targets), Fields(rawDeps), inlineRecipe, lines, pos, scanner.fileName);
  }

  /**
   * parseRuleOrVariable: classifies the current line as an assignment or a rule
   * header, consumes a header's recipe lines, and leaves the scanner on the first
   * line it did not consume.
   */
  method ParseRuleOrVariable(scanner: MakefileScanner) returns (ret: Option<Entry>)
    requires scanner.Valid()
    modifies scanner
    ensures scanner.Valid()
    ensures KindStep(ClassifyRuleOrVariable(LineAt(scanner.lines, old(scanner.pos))), scanner.lines, old(scanner.pos), scanner.fileName)
         == Step(ret, scanner.pos)
  {
    var line := scanner.Text();
    ghost var lines := scanner.lines;
    ghost var pos := scanner.pos;
    ghost var kind := ClassifyRuleOrVariable(line);

    var simple := MatchSimpleVariable(line);
    if simple.Some? {
      assert kind == VariableLine(TrimSpace(simple.value.name), TrimSpace(simple.value.value), true);
      ret := Some(VariableEntry(Variable(
        TrimSpace(simple.value.name), true, TrimSpace(simple.value.value), false,
        scanner.fileName, scanner.lineNumber)));
      scanner.Scan();
      assert KindStep(kind, lines, pos, scanner.fileName) == Step(ret, scanner.pos);
      return;
    }

    var expanded := MatchExpandedVariable(line);
    if expanded.Some? {
      assert kind == VariableLine(TrimSpace(expanded.value.name), TrimSpace(expanded.value.value), false);
      ret := Some(VariableEntry(Variable(
        TrimSpace(expanded.value.name), false, TrimSpace(expanded.value.value), false,
        scanner.fileName, scanner.lineNumber)));
      scanner.Scan();
      assert KindStep(kind, lines, pos, scanner.fileName) == Step(ret, scanner.pos);
      return;
    }

    var other := MatchOtherVariable(line);
    if other.Some? {
      var op := TrimSpace(other.value.op);
      var isSimple := false;
      if op == "!=" {
        isSimple := true;
      } else if op == "?=" {
        isSimple := false;
      } else if op == "+=" {
        isSimple := false;
      }
      assert kind == VariableLine(TrimSpace(other.value.name), TrimSpace(other.value.value), isSimple);
      ret := Some(VariableEntry(Variable(
        TrimSpace(other.value.name), isSimple, TrimSpace(other.value.value), false,
        scanner.fileName, scanner.lineNumber)));
      scanner.Scan();
      assert KindStep(kind, lines, pos, scanner.fileName) == Step(ret, scanner.pos);
      return;
    }

    var header := MatchRule(line);
    if header.Some? {
      var rule := ParseRuleHeader(scanner, header.value);
      ret := Some(RuleEntry(rule));
      return;
    }

    // An unrecognised line only reaches the debug log; it is skipped.
    assert kind == Unmatched;
    scanner.Scan();
    ret := None;
    assert KindStep(kind, lines, pos, scanner.fileName) == Step(ret, scanner.pos);
  }

  /**
   * Parse: `file` is the result of opening the path, None when it cannot be opened.
   * The loop classifies the current line, appends what it yields, and stops once
   * the scanner has passed the last line.
   */
  method Parse(filepath: string, file: Option<seq<Line>>) returns (ret: Makefile, failed: bool)
    ensures failed <==> file.None?
    ensures file.None? ==> ret == Makefile(filepath, [], [])
    ensures file.Some? ==> ret == ParseLines(filepath, file.value)
  {
    ret := Makefile(filepath, [], []);
    if file.None? {
      return ret, true;
    }
    failed := false;
    var scanner := new MakefileScanner(filepath, file.value);
    while true
      invariant scanner.Valid()
      invariant scanner.lines == file.value && scanner.fileName == filepath
      invariant ret.fileName == filepath
      invariant scanner.pos == 0 || scanner.pos < |scanner.lines|
      invariant ParseLines(filepath, file.value) == ParseFrom(scanner.lines, scanner.pos, ret)
      decreases |scanner.lines| - scanner.pos
    {
      ghost var pos := scanner.pos;
      ghost var acc := ret;
      var line := scanner.Text();
      if HasPrefix(line, "#") {
        scanner.Scan();
      } else if HasPrefix(line, ".") {
        var matches := MatchSpecialTarget(line);
        if matches.Some? {
          var specialRule := Rule(
            TrimSpace(matches.value.targets), Fields(TrimSpace(matches.value.rest)), [],
            filepath, scanner.lineNumber);
          ret := ret.(rules := ret.rules + [specialRule]);
        }
        scanner.Scan();
      } else {
        var ruleOrVariable := ParseRuleOrVariable(scanner);
        match ruleOrVariable {
          case Some(RuleEntry(r)) => ret := ret.(rules := ret.rules + [r]);
          case Some(VariableEntry(v)) => ret := ret.(variables := ret.variables + [v]);
          case None =>
        }
      }
      assert StepAt(scanner.lines, pos, filepath).next == scanner.pos;
      assert ret == Add(acc, StepAt(scanner.lines, pos, filepath).entry);
      if scanner.finished {
        return;
      }
    }
  }
}
