# checkmake core, modelled in Dafny

checkmake is a linter for Makefiles. This project models the core of it:

- **the line-oriented parser.** It turns a Makefile into rules (target, prerequisites, recipe lines, line number) and variables (name, assignment, expansion flavour, line number).
- **the rule registry.** It holds the checks by name and lists them in alphabetical order. It also resolves each check's severity from its configuration.
- **three checks:**
  - `minphony`: the required targets must exist and be declared phony.
  - `phonydeclared`: every target without a recipe must be declared phony.
  - `uniquetargets`: no target may be defined twice.
- **the validator.** It runs every registered check that is not disabled and stamps the resolved severity into each report that left it unset. Then it concatenates the reports.

## Modules

| module | file |
|---|---|
| `Wrappers` | `Option` |
| `GoStrings` | the Go string functions the core relies on: `TrimSpace`, `Fields`, `Split`, `Join`, `IndexAny` (with a one-character set), decimal formatting. They use the full Unicode white-space set that Go uses. |
| `GoSort` | byte-wise string order and `sort.Strings`, as an insertion sort proved sorted and a permutation |
| `Patterns` | the six regular expressions of the parser, each as a matcher function. Each matcher has a *complete* lemma (every line of the pattern's shape matches, with these captures) and a *sound* lemma (every match has that shape). |
| `Parser` | the scanner (a class over the file's lines), the imperative `Parse` and `parseRuleOrVariable`, and the pure specification `ParseLines` they are proved against |
| `ParserFacts` | what parsing guarantees: how each kind of line is classified, line numbers, well-formed prerequisites, and ordering |
| `RuleBase` | severities, violations and rule configurations |
| `Phony` | the names declared phony by `PHONY` variables and by `.PHONY` rules |
| `MinPhony` | the `minphony` check |
| `PhonyDeclared` | the `phonydeclared` check |
| `UniqueTargets` | the `uniquetargets` check |
| `Rules` | the registry and severity resolution |
| `Validator` | the validator |

Each check's `Run` method follows the source's loops. It is proved equal to a `RunSpec` function, and the lemmas state what `RunSpec` reports, in both directions.

### Behaviour of the code worth knowing

- `minphony` reads phony declarations only from *variables* named `PHONY`. It never reads `.PHONY` rules, even though the parser turns `.PHONY:` lines into rules. `MinPhony.PhonyRuleIgnored` states that a required, defined target declared only by a `.PHONY` rule is reported as undeclared in every Makefile, and `MinPhony.PhonyRuleNotRead` exhibits one.
- `minphony` reports on one line number for every violation. That number is the line of the last `PHONY` variable minus one, or 0 when there is no such variable.
- A rule header's line number is the scanner's line number minus one (parser.go:204). A special-target rule and a variable carry the scanner's line number unchanged.
- A line starting with `.` is either a special-target rule or skipped. So a line such as `.VAR := x` never becomes a variable, and no variable is ever marked special.

## Model

| member | source | states |
|---|---|---|
| Parser.MakefileScanner.constructor | parser/parser.go:91-92 | a fresh scanner sits on the first line of the file, numbered 1 |
| Parser.MakefileScanner.Text | parser/parser.go:99-103 | the current line, and "" once the scanner has passed the last line |
| Parser.MakefileScanner.Scan | parser/parser.go:101 | advancing moves to the next line and the next line number; finished exactly when the last line was passed |
| Parser.Parse | parser/parser.go:89-135 | an unopenable file gives an error and the empty Makefile with the path as its name; otherwise the loop's result equals the specification `ParseLines` of the file's lines |
| Parser.ParseRuleOrVariable | parser/parser.go:147-254 | the entry returned and the line the scanner is left on are those the classification of the current line prescribes: assignment patterns in priority order, then a rule header with its recipe, else the line is skipped |
| Parser.ParseRuleHeader | parser/parser.go:203-243 | a header yields the rule with trimmed target, the prerequisites before `;`, the inline recipe first, then the following recipe lines, numbered one less than the header's line |
| Parser.CollectRecipe | parser/parser.go:229-233 | the recipe loop appends exactly the trimmed tab-prefixed lines that follow and stops on the first line that is not one |
| Parser.DropEmpty | parser/parser.go:216-221 | the prerequisite filter keeps exactly the non-empty fields, in order |
| Parser.FieldsHaveNoEmpty | parser/parser.go:217-219 | the emptiness filter never drops a field, because `strings.Fields` yields no empty string |
| Parser.KindStep | parser/parser.go:97-133 | every loop iteration moves past at least the line it classified, so the parse loop terminates |
| Parser.Classify | parser/parser.go:97-129 | the priority order of one loop iteration; its meaning per kind of line is stated by `ParserFacts.CommentStep`, `DotStep`, `SpecialTargetLine`, `StepLineNumber` |
| Parser.ClassifyRuleOrVariable | parser/parser.go:147-254 | the classification of `parseRuleOrVariable`; its meaning is stated by `ParserFacts.AssignmentLine`, `ExpandedAssignmentLine`, `OtherAssignmentLine`, `VariableLineSound`, `RuleNotAssignment`, `RuleHeaderLine`, `RuleHeaderSound` |
| Parser.ParseLines | parser/parser.go:89-135 | the Makefile the parse loop builds; `Parser.Parse` is proved equal to it and `ParserFacts.ParseLinesFacts` states what it guarantees |
| ParserFacts.CommentStep | parser/parser.go:99-101 | a `#` line yields nothing and moves on one line |
| ParserFacts.DotStep | parser/parser.go:102-114 | a `.` line yields a rule iff it matches the special-target pattern; the rule has no recipe and carries the scanner's line number; the step moves on one line |
| ParserFacts.SpecialTargetLine | parser/parser.go:103-107 | a `.NAME :` line yields the target `.NAME` and the fields after the colon as prerequisites |
| ParserFacts.AssignmentLine | parser/parser.go:150-201 | a non-dotted `name op value` line with an assignment operator is a variable with that name and trimmed value; it is simply expanded iff the operator is `:=`/`::=`/`:::=` or `!=` |
| ParserFacts.ExpandedAssignmentLine | parser/parser.go:162-171 | a `name = value` line is a recursively expanded variable |
| ParserFacts.OtherAssignmentLine | parser/parser.go:173-200 | a `?=`/`!=`/`+=` line is a variable, simply expanded only for `!=` |
| ParserFacts.VariableLineSound | parser/parser.go:150-201 | every line classified as a variable is a non-dotted `name op value` line, and the classification is the one the operator prescribes |
| ParserFacts.RuleNotAssignment | parser/parser.go:52-54 | a `targets: rest` line whose rest does not start with `=` matches neither the `=` nor the `?=`/`!=`/`+=` pattern, nor `:=` unless rest starts with `:` |
| ParserFacts.RuleHeaderLine | parser/parser.go:203-221 | a header line that is not an assignment yields the trimmed targets, the fields before `;` and the inline recipe after it |
| ParserFacts.RuleHeaderSound | parser/parser.go:203-221 | every line classified as a header has the header shape, and its parts are those |
| ParserFacts.InlineRecipeSplit | parser/parser.go:208-213 | the prerequisites never contain `;`; without `;` nothing is split off; with one, the split is at its first occurrence and both halves are trimmed |
| ParserFacts.BodyShape | parser/parser.go:229-233 | the recipe has one entry per consumed line and stops at a line without a leading tab |
| ParserFacts.BodyLineAt | parser/parser.go:229-233 | every consumed line starts with a tab, and its trimmed text is the body entry at the same offset |
| ParserFacts.FieldsAreDependencies | parser/parser.go:216-221 | prerequisites are non-empty and contain no white space |
| ParserFacts.StepEntry | parser/parser.go:105-110 | a rule or variable carries the file name and well-formed parts; its exact number is stated by `StepLineNumber` |
| ParserFacts.StepLineNumber | parser/parser.go:99-243 | a rule header yields a rule numbered one less than its line, with the inline recipe and the following recipe lines as body, and resumes at the first non-recipe line; a special target yields a rule with no body and a variable line a variable, both carrying their own line's number; any other line yields nothing |
| ParserFacts.StepPastEnd | parser/parser.go:97-133 | past the last line, a step yields nothing |
| ParserFacts.AddEntry | parser/parser.go:112-127 | appending one step's entry keeps rules and variables in line order and well-formed |
| ParserFacts.ParseFromFacts | parser/parser.go:97-134 | the loop from any position keeps the file name, yields well-formed entries in line order, and at most one entry per line |
| ParserFacts.ParseLinesFacts | parser/parser.go:89-135 | a parsed Makefile carries the path, its rules and variables are in line order and well-formed, and there is at most one entry per line |
| ParserFacts.NameIsTrimmed | parser/parser.go:65 | a variable name matched by the pattern is unchanged by trimming |
| Patterns.SimpleVariableComplete | parser/parser.go:65 | every `name ws :{1,3}= ws value` line matches with those captures |
| Patterns.SimpleVariableSound | parser/parser.go:65 | every match of the simple-assignment pattern has that shape |
| Patterns.ExpandedVariableComplete | parser/parser.go:70 | every `name ws = ws value` line matches with those captures |
| Patterns.ExpandedVariableSound | parser/parser.go:70 | every match of the `=` pattern has that shape |
| Patterns.OtherVariableComplete | parser/parser.go:77 | every `name ws [?!+]= ws value` line matches with those captures |
| Patterns.OtherVariableSound | parser/parser.go:77 | every match of the other-assignment pattern has that shape |
| Patterns.RuleComplete | parser/parser.go:54 | every `targets : rest` line whose target characters are allowed and whose rest does not start with `=` matches |
| Patterns.RuleSound | parser/parser.go:54 | every match of the rule pattern has that shape |
| Patterns.SpecialTargetComplete | parser/parser.go:82 | every `.NAME ws : rest` line matches with the target `.NAME` |
| Patterns.SpecialTargetSound | parser/parser.go:82 | every match of the special-target pattern has that shape |
| Patterns.MatchSimpleVariable | parser/parser.go:65 | the `:=`/`::=`/`:::=` pattern; its meaning is stated by `SimpleVariableComplete` and `SimpleVariableSound` |
| Patterns.MatchExpandedVariable | parser/parser.go:70 | the `=` pattern; its meaning is stated by `ExpandedVariableComplete` and `ExpandedVariableSound` |
| Patterns.MatchOtherVariable | parser/parser.go:77 | the `?=`/`!=`/`+=` pattern; its meaning is stated by `OtherVariableComplete` and `OtherVariableSound` |
| Patterns.MatchRule | parser/parser.go:54 | the rule-header pattern; its meaning is stated by `RuleComplete` and `RuleSound` |
| Patterns.MatchSpecialTarget | parser/parser.go:82 | the special-target pattern; its meaning is stated by `SpecialTargetComplete` and `SpecialTargetSound` |
| Patterns.MatchRuleBody | parser/parser.go:59 | a line is a recipe line iff it starts with a tab; the capture trims to the trimmed line |
| Patterns.AssignmentNeedsName | parser/parser.go:65-77 | a line that does not start with a name character is no assignment |
| Patterns.AssignmentValueTrimmed | parser/parser.go:153 | trimming the captured value equals trimming everything after the operator |
| Patterns.AssignmentRuns | parser/parser.go:65-77 | the name, the spaces and the value start are found where the line's shape puts them |
| Patterns.RegexSpaceIsSpace | parser/parser.go:54-82 | white space of the patterns is also white space for `strings.TrimSpace` and `strings.Fields` |
| Patterns.ValueStart | parser/parser.go:65-77 | the value starts after the operator and within the line |
| GoStrings.TrimSpaceIdempotent | parser/parser.go:152-153 | trimming twice equals trimming once |
| GoStrings.TrimSpaceIs | parser/parser.go:152-153 | trimming removes exactly the leading and trailing white space |
| GoStrings.FieldsOfTrimSpace | parser/parser.go:107 | the fields of a trimmed string are the fields of the string |
| GoStrings.FieldWellFormed | parser/parser.go:217 | every field is non-empty and free of white space |
| GoStrings.IndexOf | parser/parser.go:210 | -1 iff the character is absent; otherwise the index of its first occurrence |
| GoStrings.JoinSplit | rules/minphony/minphony.go:57 | joining the comma-split pieces with commas gives the original string |
| GoStrings.SplitJoin | rules/minphony/minphony.go:57 | splitting the comma-join of comma-free pieces gives the pieces back |
| GoStrings.SplitPiecesFree | rules/uniquetargets/uniquetargets.go:48 | no split piece contains the separator |
| GoStrings.NatToString | rules/uniquetargets/uniquetargets.go:76 | decimal formatting yields at least one digit, and digits only |
| GoStrings.NatToStringValue | rules/uniquetargets/uniquetargets.go:76 | the digits `%d` writes spell the number, with no leading zero except for 0 itself |
| GoSort.SortStrings | rules/rules.go:81 | the result is sorted and a permutation of the input |
| GoSort.InsertPermutes | rules/rules.go:81 | inserting adds exactly one occurrence of the element |
| GoSort.InsertKeepsSorted | rules/rules.go:81 | inserting into a sorted list keeps it sorted |
| GoSort.LessIrreflexive | rules/rules.go:81 | the byte-wise order is irreflexive |
| GoSort.LessTransitive | rules/rules.go:81 | the byte-wise order is transitive |
| GoSort.LessTotal | rules/rules.go:81 | any two distinct strings are ordered |
| GoSort.PermutationKeepsDistinct | rules/rules.go:77-81 | sorting distinct keys keeps them distinct |
| GoSort.SortedDistinctAscending | rules/rules.go:81 | sorted distinct names are strictly ascending |
| RuleBase.Get | rules/rules.go:49-51 | a missing key reads as "" |
| Phony.FieldSet | rules/phonydeclared/phonydeclared.go:44-46 | the declared names are exactly the fields of the assignment |
| Phony.PhonyVariableNamesIff | rules/phonydeclared/phonydeclared.go:41-48 | a name is declared phony by a variable iff some `PHONY` variable lists it among its fields |
| Phony.PhonyRuleNamesIff | rules/phonydeclared/phonydeclared.go:50-57 | a name is declared phony by a rule iff some `.PHONY` or `PHONY` rule lists it as a prerequisite |
| MinPhony.Run | rules/minphony/minphony.go:46-107 | the reports equal the specification: the required targets in order, each missing or undeclared one reported on the phony line |
| MinPhony.Description | rules/minphony/minphony.go:34-41 | the configured list when `required` is set and non-empty, else the built-in list joined with commas; `ConfiguredRequired` states that configuring a list describes it as the built-in one would |
| MinPhony.LoadRequired | rules/minphony/minphony.go:49-62 | the configured list, comma-split and trimmed, replaces the built-in one; "" gives none; no key keeps the built-in list |
| MinPhony.CollectPhony | rules/minphony/minphony.go:64-74 | the declared set is the fields of every `PHONY` variable, and the line is the last one's number minus one |
| MinPhony.CollectTargets | rules/minphony/minphony.go:76-80 | the defined set is exactly the rules' targets |
| MinPhony.CheckRequired | rules/minphony/minphony.go:82-104 | one report per required name that is missing, or else not declared phony |
| MinPhony.ViolationsReport | rules/minphony/minphony.go:83-103 | "missing" is reported iff the name is required and not defined; "undeclared" iff required, defined and not declared |
| MinPhony.ViolationsShape | rules/minphony/minphony.go:86-102 | at most one report per required name; each names the rule and the file, sits on the phony line, leaves the severity unset, and is about a required name |
| MinPhony.MessagesDistinct | rules/minphony/minphony.go:88-99 | each message determines its target, and the two kinds never coincide |
| MinPhony.PhonyLineIs | rules/minphony/minphony.go:66-69 | the phony line is 0 without a `PHONY` variable, else the last such variable's number minus one |
| MinPhony.ConfiguredRequired | rules/minphony/minphony.go:34-41 | configuring a comma-joined list of trimmed names requires exactly those names, and describes them as the built-in list would |
| MinPhony.RequiredEmptyDisables | rules/minphony/minphony.go:52-55 | `required = ""` yields no report at all |
| MinPhony.PhonyRuleIgnored | rules/minphony/minphony.go:64-104 | in every Makefile, a required and defined target that no `PHONY` variable declares is reported as undeclared, even when a `.PHONY` rule lists it |
| MinPhony.PhonyRuleNotRead | rules/minphony/minphony.go:64-74 | one concrete Makefile whose `.PHONY` rule lists `all` and which still gets the undeclared report for `all` |
| PhonyDeclared.Description | rules/phonydeclared/phonydeclared.go:26-28 | the description ignores the configuration |
| PhonyDeclared.Run | rules/phonydeclared/phonydeclared.go:36-77 | the reports equal the specification over the rules and the union of both phony sources |
| PhonyDeclared.CollectVariablePhony | rules/phonydeclared/phonydeclared.go:41-48 | the index holds exactly the names `PHONY` variables declare |
| PhonyDeclared.CollectRulePhony | rules/phonydeclared/phonydeclared.go:50-57 | the index gains exactly the names `.PHONY`/`PHONY` rules declare |
| PhonyDeclared.ReportRules | rules/phonydeclared/phonydeclared.go:58-74 | one report per rule, in order, whose target has no leading dot, no recipe and is not declared phony |
| PhonyDeclared.ViolationsExactly | rules/phonydeclared/phonydeclared.go:58-74 | a report is present iff it is the report of a flagged rule; there are no more reports than rules |
| PhonyDeclared.MessageInjective | rules/phonydeclared/phonydeclared.go:69 | the message determines the target |
| PhonyDeclared.NeverReported | rules/phonydeclared/phonydeclared.go:60-66 | a dotted, phony-declared, or everywhere-recipe-bearing target is never reported |
| PhonyDeclared.ViolationsUnset | rules/phonydeclared/phonydeclared.go:67-72 | every report names the rule and the file and leaves the severity unset |
| UniqueTargets.Description | rules/uniquetargets/uniquetargets.go:25-32 | the ignore list appears in the description iff it is configured and non-empty |
| UniqueTargets.Run | rules/uniquetargets/uniquetargets.go:40-87 | the reports equal the specification's walk over the rules |
| UniqueTargets.LoadIgnored | rules/uniquetargets/uniquetargets.go:44-55 | the ignored set is the non-empty trimmed comma-separated names, or empty without the key |
| UniqueTargets.IgnoredInIff | rules/uniquetargets/uniquetargets.go:48-53 | a name is ignored iff it is non-empty and some trimmed piece equals it |
| UniqueTargets.SeenFirst | rules/uniquetargets/uniquetargets.go:57-84 | a target is remembered iff it is checked and defined; it is remembered with the line of its first definition |
| UniqueTargets.CountReports | rules/uniquetargets/uniquetargets.go:57-84 | reports + distinct targets remembered = checked rules |
| UniqueTargets.ReportsAreRepeats | rules/uniquetargets/uniquetargets.go:73-80 | every report is about a checked rule that repeats an earlier target, and cites that target's first line and its own line |
| UniqueTargets.RepeatsAreReported | rules/uniquetargets/uniquetargets.go:57-84 | every checked rule that repeats an earlier target is reported, citing the line of that target's first definition |
| UniqueTargets.NoRepeatsNoReports | rules/uniquetargets/uniquetargets.go:57-84 | without repeated checked targets there is no report |
| Rules.RunRule | rules/rules.go:20-25 | running a registered check dispatches to that check's specification |
| Rules.Name | rules/rules.go:20-21 | each check's name; `NamesIdentify` states that the name determines the check |
| Rules.Description | rules/rules.go:22 | each check's description, stated by `MinPhony.Description`, `PhonyDeclared.Description` and `UniqueTargets.Description` |
| Rules.DefaultSeverity | rules/rules.go:23 | each check's default severity; `SeverityResolved` states that for the two checks with a fixed default the resolved severity is always a valid one |
| Rules.Run | rules/rules.go:24 | the dispatch to each check's specification; `RunAttributed` states that every report names its check and the file |
| Rules.RunAttributed | rules/rules.go:36-43 | every report of a check names that check and the Makefile's file |
| Rules.NamesIdentify | rules/rules.go:56-68 | a check's name determines which check it is |
| Rules.GetSeverityFromConfig | rules/rules.go:91-102 | a configured valid severity wins; otherwise the check's default |
| Rules.SeverityResolved | rules/rules.go:91-102 | the resolved severity is a valid one whenever the default is, and never empty when the default is not |
| Rules.RuleRegistry.constructor | rules/rules.go:61-63 | the registry starts empty |
| Rules.RuleRegistry.RegisterRule | rules/rules.go:65-68 | registering stores the check under its own name and changes nothing else |
| Rules.RuleRegistry.GetRulesSorted | rules/rules.go:75-88 | every registered check exactly once, in strictly ascending name order |
| Rules.CollectNames | rules/rules.go:77-80 | the keys collected are distinct and exactly the registry's names |
| Rules.LookupAll | rules/rules.go:83-86 | each name is replaced by the check registered under it, in order |
| Rules.SortedNames | rules/rules.go:81 | sorting the distinct keys gives a strictly ascending list of the same names |
| Rules.DefaultRegistry | rules/minphony/minphony.go:19-21 | after the checks register themselves, the registry holds exactly the three checks under their names |
| Validator.GetRuleConfig | validator/validator.go:28 | a check's configuration, or the empty one when it has none |
| Validator.Stamp | validator/validator.go:33-38 | each report keeps its contents; a set severity is kept and an unset one becomes the resolved severity |
| Validator.StampSeverity | validator/validator.go:33-38 | the in-place loop leaves exactly the stamped reports in the array |
| Validator.RunEnabled | validator/validator.go:29-40 | a disabled check contributes nothing; otherwise its reports, stamped with its resolved severity |
| Validator.Validate | validator/validator.go:23-44 | every registered check contributes exactly once, in some order over the registry, and the result is their contributions concatenated in that order; whatever the order, a report is in the result iff some registered check contributed it |
| Validator.CollectedFromRegistry | validator/validator.go:26-41 | for any walk that visits exactly the registered names, a report is in the result iff some registered check contributed it |
| Validator.StampIdempotent | validator/validator.go:35-37 | stamping reports that already carry a set severity changes nothing |
| Validator.CollectedSnoc | validator/validator.go:39 | one more check appends its contribution at the end |
| Validator.CollectedBlock | validator/validator.go:26-41 | each check's contribution appears as one contiguous block between those of the checks before and after it |
| Validator.CollectedMembers | validator/validator.go:26-41 | a report is in the result iff it is in the contribution of some registered check |
| Validator.ContributionFacts | validator/validator.go:29-39 | a disabled check contributes nothing; every report names its check and the file; with a non-empty default no report's severity is empty |
| Validator.DisabledSilent | validator/validator.go:29 | no report of a disabled check appears in the result |
| Validator.NoEmptySeverity | validator/validator.go:32-38 | when every check has a non-empty default severity, every report in the result has a severity |

## Left out

- The scanner source (`NewMakefileScanner`, `MakefileScanner`) is not part of this model. The class `Parser.MakefileScanner` stands for it over the file's lines, numbered from 1. Opening the file is the parameter `file` of `Parser.Parse`, which is `None` when the file cannot be opened.
- Debug logging in `parseRuleOrVariable` and `Validate` is omitted. It has no effect on the results.
- The configuration file (`config.Config`), the command-line front end and the output formatters are not part of this model. The validator takes the per-check configurations as a map.
- The `maxbodylength` and `timestampexpanded` checks are not part of this model. The registry's closed `Rules.Rule` datatype has only the three modelled checks.
- Go's `init` self-registration and the process-wide registry become `Rules.DefaultRegistry`, which registers the three checks explicitly. `GetRegisteredRules` is the field `RuleRegistry.rules`.
- `MinPhony` defines no default severity of its own. `Rules.Rule.MinPhonyRule` carries it as a parameter.
- Messages write `%q` as the target between plain double quotes. Go's escaping of quotes, backslashes and control characters inside the target is not modelled.
- `Validator.Validate` takes the registry's iteration order as a ghost output `order` and promises only that it lists each registered name once. Go's randomised map order is not modelled further.
- nil and empty slices and maps are one value. A nil `RuleConfig` reads exactly as an empty one.
- `UniqueTargets`: the second `.PHONY` test (uniquetargets.go:68-71) can never fire after the first one, so it is omitted.
- `parseRuleOrVariable` never returns its error. The model has no error path there.
