# Requirements analyser and protocol checker, in Dafny

This project models the two helper modules of a "skills" template repository that hold
self-contained logic:

- **The requirements analyser** (`skills/requirements_analyzer/scripts/requirements_parser.py`)
  does keyword spotting over a free-text request. It picks the main requirement: the first
  lowercased line that holds an action verb. It keeps the `.`-separated sentences that
  hold a functionality keyword. It cuts a window of text around the first occurrence of
  each technology keyword and files these windows under a fixed five-category constraints
  dictionary. It combines the three into an analysis dictionary and renders that as a
  Markdown template.
- **The protocol checker** (`skills/project_protocol/scripts/protocol_checker.py`) scores
  a phase checklist (completed items, percentage, status). It validates that an analysis
  dictionary has its five required fields present and non-empty. It summarises several
  phases in a report with overall totals.

Files:

- `sequences.dfy` (module `Sequences`): order-preserving selection (`Filter`) and the
  positions it keeps (`KeptIndices`). Both modules use them for their list
  comprehensions and their "append when a test passes" loops.
- `text.dfy` (module `Text`): the parts of Python's `str` that the analyser uses: `lower`
  and `capitalize` (ASCII), `strip` (every character `str.isspace` accepts), `split` on one
  character, `join`, `in` and `find`.
- `values.dfy` (module `Values`): `Option`, and Python values (`None`, bool, int, float,
  str, list, dict) with Python truthiness.
- `requirements_parser.dfy` (module `RequirementsParser`), `protocol_checker.dfy`
  (module `ProtocolChecker`): the two modules.

The source functions that work step by step are methods with loops. These are
`extract_main_requirement`, `identify_functionalities`, `identify_constraints`,
`format_requirements_template` and `generate_protocol_report`. The first four are
proved equal to a specification function, and the properties are proved about those
functions. `GenerateProtocolReport` states its report line by line in its contract, and
the totals it prints are related to the phases by lemmas. The "try each keyword, stop at
the first hit" inner loop that `extract_main_requirement` and `identify_functionalities`
share is one method, `ScanKeywords`. Its contract says it answers true exactly when some
keyword occurs in the line. `FormatRequirementsTemplate` renders the template header from
its seven lines, which together are the text of the source's header f-string.
The pure functions (`structure_requirements_analysis`, `check_phase_completion` and the
two validators) are Dafny functions. Percentages are exact `real` ratios.

## Model

| member | source | states |
|---|---|---|
| `Values.TruthyUnlessFalsy` | skills/project_protocol/scripts/protocol_checker.py:45 | the truth test behind `not analysis[field]` and `item.get(...)` holds exactly when the value is none of `None`, `False`, `0`, `0.0`, `""`, `[]` and `{}` |
| `Text.LowerIsLower` | skills/requirements_analyzer/scripts/requirements_parser.py:22 | `lower()` keeps the length and changes only the case of letters: non-capitals stay as they are and every character keeps its upper-case form. The result is lowercase, and lowercasing it again changes nothing (the same call appears at lines 55 and 88) |
| `Text.FindIffContains` | skills/requirements_analyzer/scripts/requirements_parser.py:92-94 | the `in` test holds exactly when `find` returns a position, so the `idx` used under it is never -1 and leaves room for the keyword (the same `in` test appears at lines 27 and 57) |
| `Text.CapitalizeOnlyChangesCase` | skills/requirements_analyzer/scripts/requirements_parser.py:146 | `capitalize()` keeps the length, upper-cases the first character and lowercases everything after it, so lowercased it gives the lowercased input. Capitalising twice is capitalising once |
| `Text.Split` | skills/requirements_analyzer/scripts/requirements_parser.py:52 | `split` on one character gives at least one piece. No piece holds the separator, every character of a piece comes from the input, and joining the pieces with the separator gives the input back |
| `Text.SplitJoin` | skills/requirements_analyzer/scripts/requirements_parser.py:22 | splitting undoes joining when no piece holds the separator, so split and join are mutual inverses |
| `Text.Find` | skills/requirements_analyzer/scripts/requirements_parser.py:94 | `find` gives -1 exactly when the keyword does not occur; otherwise it gives an occurrence with no earlier occurrence |
| `Text.StripBlock` | skills/requirements_analyzer/scripts/requirements_parser.py:28 | `strip` gives a block of the input that neither starts nor ends with white space. Everything removed at either end is white space |
| `Text.StripKeepsWord` | skills/requirements_analyzer/scripts/requirements_parser.py:95-96 | stripping never cuts into a keyword without white space: if the lowercase input holds it, so does the lowercase stripped text |
| `RequirementsParser.MessageLines` | skills/requirements_analyzer/scripts/requirements_parser.py:22 | the lines of the lowercased message: at least one, each lowercase and free of `'\n'` |
| `RequirementsParser.FirstMention` | skills/requirements_analyzer/scripts/requirements_parser.py:25-31 | the first line, in line order, that holds a verb: it holds one and no earlier line does; none exactly when no line holds a verb |
| `RequirementsParser.ScanKeywords` | skills/requirements_analyzer/scripts/requirements_parser.py:26-29 | the inner loop that tries the keywords in order and stops at the first hit finds one exactly when the text holds some keyword (the same loop appears at lines 56-59) |
| `RequirementsParser.MainRequirementOf` | skills/requirements_analyzer/scripts/requirements_parser.py:22-33 | the result is lowercase with no `'\n'`. It is the stripped first line holding an action verb if there is one, else the stripped first line |
| `RequirementsParser.MainRequirementKeepsVerbs` | skills/requirements_analyzer/scripts/requirements_parser.py:25-33 | the result holds an action verb exactly when some line does; when a line matched, the result holds exactly the verbs that line holds |
| `RequirementsParser.MatchedLineIsChosen` | skills/requirements_analyzer/scripts/requirements_parser.py:25-31 | the first line holding a verb is not empty once stripped, so the outer loop stops there, and that stripped line is the main requirement |
| `RequirementsParser.ExtractMainRequirement` | skills/requirements_analyzer/scripts/requirements_parser.py:5-33 | the nested scan with `break`s and the `if main_line` test returns `MainRequirementOf` of the message |
| `RequirementsParser.FunctionalitiesOf` | skills/requirements_analyzer/scripts/requirements_parser.py:51-61 | no selected sentence holds `'.'`, and there are no more of them than `.`-pieces |
| `RequirementsParser.FunctionalitiesInOrder` | skills/requirements_analyzer/scripts/requirements_parser.py:54-59 | the k-th functionality is the stripped sentence at the k-th position holding a keyword. Every such sentence appears once, in original order |
| `RequirementsParser.IdentifyFunctionalities` | skills/requirements_analyzer/scripts/requirements_parser.py:35-61 | the loop that appends at the first matching keyword and breaks returns `FunctionalitiesOf` of the text |
| `RequirementsParser.ContextAround` | skills/requirements_analyzer/scripts/requirements_parser.py:94-95 | the window around the first occurrence of a keyword is at most 150 characters long |
| `RequirementsParser.ContextKeepsKeyword` | skills/requirements_analyzer/scripts/requirements_parser.py:92-96 | in lowercase, the window of a keyword that occurs in the text still holds that keyword |
| `RequirementsParser.ContextsFor` | skills/requirements_analyzer/scripts/requirements_parser.py:91-96 | there is at most one window per keyword-list element, each at most 150 characters long |
| `RequirementsParser.TechnologyFindings` | skills/requirements_analyzer/scripts/requirements_parser.py:82-96 | there is one technology entry per element of the keyword list that occurs in the text, in list order. Each entry is that keyword's window and, lowercased, holds the keyword |
| `RequirementsParser.RepeatedKeywordFoundTwice` | skills/requirements_analyzer/scripts/requirements_parser.py:91-96 | a keyword listed at two positions gets its context twice, at two different entries, whenever it occurs in the text |
| `RequirementsParser.FrameworkFoundTwice` | skills/requirements_analyzer/scripts/requirements_parser.py:82 | a text that mentions "framework" gets two identical technology entries, because the keyword is listed twice |
| `RequirementsParser.ConstraintsOf` | skills/requirements_analyzer/scripts/requirements_parser.py:73-100 | exactly the five categories in their fixed order. All but `tecnologicas` are empty, and its entries are at most 150 characters each and no more than the keywords |
| `RequirementsParser.IdentifyConstraints` | skills/requirements_analyzer/scripts/requirements_parser.py:63-100 | the loop that appends windows to the technology bucket in place returns `ConstraintsOf` of the text |
| `RequirementsParser.StructureRequirementsAnalysis` | skills/requirements_analyzer/scripts/requirements_parser.py:102-119 | dependencies, acceptance criteria and ambiguities are empty. The other three fields are the three helpers' results on the same message |
| `RequirementsParser.AsDict` | skills/requirements_analyzer/scripts/requirements_parser.py:112-119 | the analysis as a Python dict: each key holds its field, and `requirement_principal` is present exactly when the main requirement is |
| `RequirementsParser.NatToStringIsDecimal` | skills/requirements_analyzer/scripts/requirements_parser.py:139-140 | the number written before each functionality is its decimal numeral: digits only, no leading zero, and it reads back as the number |
| `Text.JoinWithShowsItems` | skills/requirements_analyzer/scripts/requirements_parser.py:146 | `', '.join(items)` lays the findings out in list order: the k-th item starts after the earlier items and their separators, and the separator follows every item but the last |
| `Text.JoinWithLength` | skills/requirements_analyzer/scripts/requirements_parser.py:146 | the joined text is exactly as long as the items plus one separator between each two neighbours, so it holds nothing else |
| `Text.JoinWithOneChar` | skills/requirements_analyzer/scripts/requirements_parser.py:22 | with a one-character separator, `str.join` is the join that `split` undoes |
| `RequirementsParser.TemplateLines` | skills/requirements_analyzer/scripts/requirements_parser.py:131-146 | the template shows the main requirement, or `No identificado` when the key is absent. After the seven header lines and one line per functionality come a blank line and the constraints heading, then one line per category with findings |
| `RequirementsParser.TemplateNumbersFunctionalities` | skills/requirements_analyzer/scripts/requirements_parser.py:139-140 | the functionalities follow the header in list order, numbered from 1 |
| `RequirementsParser.TemplateShowsNonEmptyCategories` | skills/requirements_analyzer/scripts/requirements_parser.py:143-146 | the k-th constraint line renders the k-th category whose list is not empty, in dictionary order; empty categories get no line |
| `RequirementsParser.FormatRequirementsTemplate` | skills/requirements_analyzer/scripts/requirements_parser.py:121-148 | the string built with `+=` is the template lines, each followed by a newline |
| `RequirementsParser.StructuredTemplate` | skills/requirements_analyzer/scripts/requirements_parser.py:131-146 | the template of a structured analysis shows the main requirement and at most one constraint line |
| `Sequences.FilterAtKeptIndices` | skills/project_protocol/scripts/protocol_checker.py:45 | a comprehension keeps exactly the elements at the positions that pass, in order, each once |
| `ProtocolChecker.CompletedUnlessFalsy` | skills/project_protocol/scripts/protocol_checker.py:16 | an item is counted exactly when its `completed` value is present and not one of Python's false values; without the key the default `False` applies |
| `ProtocolChecker.CountCompleted` | skills/project_protocol/scripts/protocol_checker.py:16 | the completed count is at most the number of items |
| `ProtocolChecker.CountCompletedExtremes` | skills/project_protocol/scripts/protocol_checker.py:16 | the count equals the number of items exactly when every item is completed, and is 0 exactly when none is |
| `ProtocolChecker.CountCompletedAppend` | skills/project_protocol/scripts/protocol_checker.py:16 | the count is additive over concatenated checklists |
| `ProtocolChecker.Percentage` | skills/project_protocol/scripts/protocol_checker.py:23 | the percentage is 0 when nothing is counted and lies in [0, 100] when completed ≤ total. It is 100 exactly when there are items and all are completed |
| `ProtocolChecker.CheckPhaseCompletion` | skills/project_protocol/scripts/protocol_checker.py:5-25 | 0 ≤ completed ≤ total = item count, and the percentage is completed/total·100 when there are items and lies in [0, 100]. The status is `complete` exactly when every item is completed, the empty checklist included (at percentage 0) |
| `ProtocolChecker.MissingMembership` | skills/project_protocol/scripts/protocol_checker.py:45 | a field is listed as missing exactly when it is required and absent or falsy; nothing is listed exactly when every required field is present and truthy |
| `ProtocolChecker.MissingUnlessFilled` | skills/project_protocol/scripts/protocol_checker.py:45 | a field is missing exactly when it is absent or holds one of Python's false values |
| `ProtocolChecker.CompletenessBounds` | skills/project_protocol/scripts/protocol_checker.py:50 | completeness lies in [0, 100] and is 100 exactly when nothing is missing |
| `ProtocolChecker.Validate` | skills/project_protocol/scripts/protocol_checker.py:45-50 | missing fields are the required fields that are absent or falsy, and `valid` holds exactly when there are none. Completeness is (n − missing)/n·100, within [0, 100], and 100 exactly when valid |
| `ProtocolChecker.ValidateRequirementsAnalysis` | skills/project_protocol/scripts/protocol_checker.py:27-51 | `Validate` over the five requirement fields, in their listed order: the same membership, order and validity facts, and completeness is (5 − missing)/5·100 |
| `ProtocolChecker.ValidateCodebaseAnalysis` | skills/project_protocol/scripts/protocol_checker.py:53-77 | `Validate` over the five codebase fields, in their listed order, with the same facts |
| `ProtocolChecker.MissingFieldsInOrder` | skills/project_protocol/scripts/protocol_checker.py:45 | the k-th missing field is the field at the k-th missing position of the required list, so missing fields follow the listed order |
| `ProtocolChecker.DictFields` | skills/project_protocol/scripts/protocol_checker.py:45 | in the dictionary of an analysis with constraint categories and no dependencies or acceptance criteria, `restricciones` is filled and `dependencias` and `criterios_aceptacion` are missing |
| `ProtocolChecker.StructuredAnalysisIsIncomplete` | skills/project_protocol/scripts/protocol_checker.py:37-50 | validating a structured analysis always fails, listing `dependencias` and `criterios_aceptacion` and never `restricciones`; completeness is at most 60 |
| `ProtocolChecker.SumsAppend` | skills/project_protocol/scripts/protocol_checker.py:98-99 | the two `sum(...)` totals, over completed items and over all items, are additive over concatenated phase lists |
| `ProtocolChecker.SumsConsistent` | skills/project_protocol/scripts/protocol_checker.py:98-99 | when each phase has completed ≤ total, the sums keep that order. The sums are equal exactly when every phase is fully completed |
| `ProtocolChecker.OverallPercentageBounds` | skills/project_protocol/scripts/protocol_checker.py:98-100 | the overall percentage lies in [0, 100]. It is 100 exactly when there are items and every phase is fully completed |
| `ProtocolChecker.OverallOfScoredPhases` | skills/project_protocol/scripts/protocol_checker.py:98-100 | for phases scored by check_phase_completion, the totals are the counts over all items together. The overall percentage is that of the joined checklist |
| `ProtocolChecker.GenerateProtocolReport` | skills/project_protocol/scripts/protocol_checker.py:79-106 | a banner, then one row per phase in input order (icon, name, counts, percentage), then the summed totals and the overall percentage |

## Left out

- Lowercasing is an ASCII, length-preserving character map. Python's Unicode `str.lower` can change other letters and even the length (for example `'İ'`). Under it, the index `find` returns in the lowercased text need not line up with the original text.
- White space (`Text.IsSpace`) is exactly the set of characters Python's `str.isspace` accepts, listed by code point. Unicode categories are not derived.
- Float rendering is not modelled: the `:.1f` formatting and Python float rounding are left out, and percentages are exact `real` ratios.
- `ProtocolChecker.GenerateProtocolReport` returns the report as a sequence of `ReportLine` values, not as a string. The 80-character rules, the title, the emoji icons and the number formatting are not rendered.
- `RequirementsParser.ContextKeepsKeyword` is stated for keywords of at most 100 characters with no white space. Every keyword in the source qualifies.
- `RequirementsParser.FormatRequirementsTemplate` takes a typed `Analysis`. An absent `funcionalidades` or `restricciones` key behaves like an empty one. Values of other Python types (a non-string main requirement, a string in place of a list) are not modelled.
- The design, performance, security and compatibility keyword lists (`requirements_parser.py:83-86`) are declared but never consulted. The model leaves them out, since they affect no result.
- Phase dictionaries given to the report are `PhaseStatus` records: counts are naturals, and any status other than `complete` counts as incomplete.
- The Python value model covers `None`, bool, int, float, str, list and dict. Objects with their own truth test (tuples, sets, user classes) are not modelled.
- `examples/complete_example.py`, `examples/usage_example.py`, `test_skills.py` and `skills/codebase_understanding/scripts/codebase_analyzer.py` are not part of this model. They are API calls, console I/O, environment checks and filesystem walks.
