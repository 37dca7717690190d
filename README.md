# devpi-constrained: a Dafny model of the constraint engine

devpi-constrained adds a "constrained" index type to a devpi server. The
index's configuration holds a list of constraint lines. Each line is a
requirement such as `pkg<2`, or the wildcard `*`. From these lines the
index builds a table from project name to requirement, plus a flag. When
the host lists projects, versions and release links, three filters use
that table to say what is shown and what is hidden.

This project models that engine, all of `src/devpi_constrained/main.py`
apart from the host wiring, and proves what it promises:

- `Constraints` (constraints.dfy) covers the table `ContraintsDict` and the
  builder `parse_constraints`.
  - The builder is a method with a loop (`BuildConstraints`). It is proved
    equal to a recursive function (`ParseConstraints`).
  - The function is characterised line by line: when it succeeds, what the
    table holds, and otherwise which line fails and with which message.
- `ConstrainedStage` (constrained_stage.dfy) covers the configuration side.
  - `normalize_indexconfig_value` is a method with a loop that trims the
    lines of a text value and drops blank lines and comments.
  - `validate_config` is the gate that collects the two error messages.
- `VisibilityFilters` (visibility_filters.dfy) covers the three filter
  generators.
  - Each returns the sequence of booleans it yields. An empty sequence
    means "no opinion".
- `PyStr` (pystr.dfy) holds the Python string operations the engine relies
  on: `str.splitlines()`, `str.strip()`, `str.split(sep)` and `sep.join`.
  It uses Python's exact sets of line-boundary and white-space characters.
- `Packaging` (packaging.dfy) holds the foreign helpers the engine calls.
  These are `parse_requirement`, the `version in requirement` test,
  `normalize_name` and `splitext_archive`. They are the fields of a
  `Library` value passed to every operation, so every result holds for
  any behaviour of those helpers.
- `Wrappers` (wrappers.dfy) holds `Option` and `Result`.

The table is modelled as a value. The source fills its `dict` only while
`parse_constraints` builds it. The builder method reassigns that value in
its loop, and the filters only read it.

The link filter's search over a file name does not stop at the first
prefix that names the project. A prefix that names the project but whose
version does not satisfy the requirement yields False, and the search goes
on to longer prefixes. Only a True stops it (main.py:97-101). So one file
name can yield several verdicts.
- `VisibilityFilters.SearchKey` states what this gives: at most the last
  verdict is True, and there is a True exactly when some prefix naming the
  project has a satisfying version.
- `VisibilityFilters.SearchKeyJudgesMatches` states that the verdicts judge
  the matching prefixes in increasing order, one each, up to and including
  the first satisfying one.
- `VisibilityFilters.SearchKeyShortestMatch` states that the shortest
  matching prefix decides the first verdict.

## Model

| member | source | states |
|---|---|---|
| Constraints.BuildConstraints | src/devpi_constrained/main.py:15-29 | The loop over the lines returns exactly `ParseConstraints(lines)`. That is the table after every line is added in order, or the error of the first line that cannot be added. |
| Constraints.FailureIsFinal | src/devpi_constrained/main.py:21-27 | Once the lines up to some point fail to build, the lines after them do not change the result: the first raise ends the build. |
| Constraints.AddWildcardSpec | src/devpi_constrained/main.py:18-20 | A `*` line sets `constrain_all` and adds no entry. The table still describes the lines, the `*` included. |
| Constraints.AddEntrySpec | src/devpi_constrained/main.py:26-28 | A line naming a project not yet in the table adds exactly one entry, keyed by the parser's project name and holding the parsed requirement. |
| Constraints.AddConstraintSpec | src/devpi_constrained/main.py:17-28 | One pass of the loop succeeds exactly when the line is not refused. On success the new table describes the lines so far. On failure the error is the line's refusal message. |
| Constraints.ParseConstraintsSpec | src/devpi_constrained/main.py:15-29 | The build succeeds iff no line is refused, i.e. no line fails to parse or repeats an earlier name. On success: `constrain_all` iff `*` is a line; the keys are the names the lines give; each entry is its line's requirement; there is one entry per non-`*` line, so nothing is merged or overwritten. On failure: the error is the message of a refused line that all earlier lines let through. |
| Constraints.FirstRefusalDecides | src/devpi_constrained/main.py:21-27 | If the lines before line i are all accepted and line i is refused, the build fails with line i's message: a parse error for the line, or "Constraint for '<name>' already exists.". |
| Constraints.ConflictingConstraintsExample | src/devpi_constrained/tests/test_constrained.py:92-100 | `bla<2` then `bla<3` fails with "Constraint for 'bla' already exists.". |
| ConstrainedStage.NormalizeIndexconfigValue | src/devpi_constrained/main.py:41-51 | Any key other than `constraints` gives nothing. A list is returned unchanged. A text gives `ConfigLines(text)`, the trimmed kept lines of `splitlines()`. |
| ConstrainedStage.CleanLines | src/devpi_constrained/main.py:45-49 | Every item kept is non-empty, does not start with `#` and is trimmed. There are never more items than lines. |
| ConstrainedStage.CleanLinesSnoc | src/devpi_constrained/main.py:45-49 | One more line appends its trimmed form exactly when that form is kept. |
| ConstrainedStage.CleanLinesAppend | src/devpi_constrained/main.py:45-49 | Cleaning works line by line: cleaning two lists one after the other gives the two results one after the other, so order is kept. |
| ConstrainedStage.CleanLinesMembers | src/devpi_constrained/main.py:45-49 | An item is in the result iff it is kept and is the trimmed form of some line. |
| ConstrainedStage.CleanLinesFixed | src/devpi_constrained/main.py:46-49 | Lines that are already trimmed and kept come through unchanged. |
| ConstrainedStage.CleanLinesSnocKept | src/devpi_constrained/main.py:46-49 | A line that is already trimmed and kept is appended as it is. |
| ConstrainedStage.ConfigLinesRoundTrip | src/devpi_constrained/main.py:44-50 | The stored list is canonical: writing it back as text, one item per line, and normalising again gives the same list. |
| ConstrainedStage.SplitFourLines | src/devpi_constrained/main.py:45 | Four lines, each ended by a line feed, split back into the same four lines. |
| ConstrainedStage.CleanCommented | src/devpi_constrained/main.py:47-48 | Of two constraint lines, a blank line and a `#` comment, only the two constraint lines remain. |
| ConstrainedStage.ConstraintsFileExample | src/devpi_constrained/tests/test_constrained.py:103-110 | The text `'bla<2\nfoo>3\n\n# comment\n'` is stored as `['bla<2', 'foo>3']`. |
| ConstrainedStage.ConfigErrors | src/devpi_constrained/main.py:53-62 | No messages iff the constraints build and there is at least one base. The parse message `Error while parsing constrains: <error>` comes first and appears iff the build fails. The base message appears iff there are no bases. Both can appear together. |
| ConstrainedStage.ValidateConfig | src/devpi_constrained/main.py:53-62 | The method collects exactly the messages `ConfigErrors` gives. A non-empty list is the rejected configuration. |
| ConstrainedStage.DuplicateRejected | src/devpi_constrained/main.py:26-27 | When no earlier line is refused, a line naming a project an earlier line already named makes validation fail. The first message is the parse prefix followed by "Constraint for '<name>' already exists.". |
| ConstrainedStage.MalformedRejected | src/devpi_constrained/main.py:21-25 | When no earlier line is refused, a line the parser rejects makes validation fail with a first message that contains the line's text. |
| PyStr.FirstLineBreak | src/devpi_constrained/main.py:45 | The index returned is that of the first line-boundary character, or the length when there is none. |
| PyStr.SplitLines | src/devpi_constrained/main.py:45 | No line contains a boundary character. The text is empty iff there are no lines. |
| PyStr.SplitLinesSingle | src/devpi_constrained/main.py:45 | A non-empty text without boundary characters is a single line. |
| PyStr.SplitLinesBreak | src/devpi_constrained/main.py:45 | A line without boundaries, followed by any one of the ten boundary characters, is the first line of the text, and splitting goes on after that character. A carriage return followed by a line feed is the exception. With `SplitLinesCrLf`, `SplitLinesSingle` and the empty case, this fixes `splitlines()` on every text. |
| PyStr.SplitLinesCrLf | src/devpi_constrained/main.py:45 | A carriage return followed by a line feed is one boundary: the line before it is the first line, and splitting goes on after both characters. |
| PyStr.SplitLinesCons | src/devpi_constrained/main.py:45 | A line without boundaries followed by a line feed is the first line of the text. |
| PyStr.SplitLinesJoin | src/devpi_constrained/main.py:45 | Non-empty lines without boundaries, joined with line feeds, split back into the same lines. |
| PyStr.SplitLinesJoinStep | src/devpi_constrained/main.py:45 | The inductive step of `SplitLinesJoin`. |
| PyStr.Strip | src/devpi_constrained/main.py:46 | The result has no white space at either end and is no longer than the input. An already-trimmed input is returned as it is. Trimming adds no line boundary. |
| PyStr.StripTrims | src/devpi_constrained/main.py:46 | The result is a contiguous part of the input with only white space around it. |
| PyStr.FirstIndexOf | src/devpi_constrained/main.py:91 | The index returned is that of the first occurrence of the separator, or the length when it does not occur. |
| PyStr.Split | src/devpi_constrained/main.py:91 | There is at least one part and no part contains the separator. There is a single part iff the separator does not occur. |
| PyStr.SplitAtFirst | src/devpi_constrained/main.py:91 | Splitting gives the text before the first separator, then the split of the text after it. |
| PyStr.JoinSplit | src/devpi_constrained/main.py:91-96 | Joining the parts with `-` gives back the text that was split. |
| PyStr.JoinSplitStep | src/devpi_constrained/main.py:91-96 | The inductive step of `JoinSplit`. |
| PyStr.SplitJoin | src/devpi_constrained/main.py:91-96 | Parts that do not contain the separator, once joined, split back into the same parts. |
| PyStr.SplitJoinStep | src/devpi_constrained/main.py:91-96 | The inductive step of `SplitJoin`. |
| PyStr.JoinAppend | src/devpi_constrained/main.py:93-96 | Joining a concatenation puts one separator between the two joined halves. |
| VisibilityFilters.ProjectVerdicts | src/devpi_constrained/main.py:73-74 | There is one verdict per project, in order: whether the project has an entry. |
| VisibilityFilters.ProjectsFilter | src/devpi_constrained/main.py:69-74 | Nothing without `constrain_all`. Otherwise the per-project verdicts. |
| VisibilityFilters.VersionVerdicts | src/devpi_constrained/main.py:80-81 | There is one verdict per version, in order: whether it satisfies the requirement. |
| VisibilityFilters.VersionsFilter | src/devpi_constrained/main.py:76-81 | Nothing for a project without an entry, whatever `constrain_all` is. Otherwise the per-version verdicts against that entry. |
| VisibilityFilters.SearchKey | src/devpi_constrained/main.py:92-101 | Only the last verdict can be True. There are no verdicts iff no prefix from here on normalises to the project. A True is yielded iff some such prefix leaves a satisfying version. |
| VisibilityFilters.Matches | src/devpi_constrained/main.py:92-95 | The candidates are exactly the prefix lengths from the start index on whose joined, normalised name is the project, in strictly increasing order. |
| VisibilityFilters.SearchKeyJudgesMatches | src/devpi_constrained/main.py:92-101 | The search judges the candidate prefixes in increasing order. Verdict i is whether candidate i's version satisfies the requirement. There are fewer verdicts than candidates only when the last verdict is True. With `SearchKey`'s "only the last can be True", the verdicts are exactly one per candidate up to and including the first satisfying one. |
| VisibilityFilters.SearchKeyJudgesStep | src/devpi_constrained/main.py:92-101 | The inductive step of `SearchKeyJudgesMatches`. A prefix naming another project is skipped. A satisfying one yields True and ends the search. An unsatisfying one yields False and the search goes on. |
| VisibilityFilters.JudgedFirst | src/devpi_constrained/main.py:97-99 | A first candidate whose version satisfies the requirement is judged True, and no later candidate is judged. |
| VisibilityFilters.JudgedMatchesCons | src/devpi_constrained/main.py:100-101 | A first candidate whose version fails is judged False, and the later candidates are judged after it. |
| VisibilityFilters.SearchKeyShortestMatch | src/devpi_constrained/main.py:92-101 | The shortest prefix naming the project decides the first verdict. When that prefix's version satisfies the requirement, it is the only verdict. |
| VisibilityFilters.JudgeLink | src/devpi_constrained/main.py:88-108 | A link object of another project gives nothing. One of the project gives exactly whether its version satisfies the requirement. A file name key gives the verdicts of the prefix search over its parts. A link gives at most one True, and only as its last verdict. |
| VisibilityFilters.JudgeLinks | src/devpi_constrained/main.py:88-108 | When every link is a link object of the project, there is exactly one verdict per link: whether its version satisfies the requirement. |
| VisibilityFilters.JudgeLinksAppend | src/devpi_constrained/main.py:88-108 | Links are judged one by one: the verdicts of two lists are those of each, in order. |
| VisibilityFilters.JudgeLinksSingle | src/devpi_constrained/main.py:88-108 | A list of one link gives that link's verdicts. With `JudgeLinksAppend` this fixes the verdicts of any list of links. |
| VisibilityFilters.LinksFilter | src/devpi_constrained/main.py:83-108 | Nothing for a project without an entry. Otherwise the verdicts of the links against that entry. |
| VisibilityFilters.CandidateSplitReassembles | src/devpi_constrained/main.py:91-96 | Every candidate split reassembles to the base name: name parts, `-`, version. |
| VisibilityFilters.KeyWithoutSeparator | src/devpi_constrained/main.py:91-92 | A file name whose base has no `-` yields nothing. |
| VisibilityFilters.SimpleKey | src/devpi_constrained/main.py:89-101 | `<name>-<version>`, with no `-` in either and a normalised name, yields exactly one verdict: whether the version satisfies the requirement. |
| VisibilityFilters.ReleaseFilesExample | src/devpi_constrained/tests/test_constrained.py:270-300 | With `pkg` constrained to 1.1 only, `pkg-1.1.zip` is shown and `pkg-2.0.zip` is hidden. |
| VisibilityFilters.ConfiguredProjects | src/devpi_constrained/main.py:69-74 | Over a table built from lines: no opinion without a `*` line. With one, a project is shown iff some line names it. |
| VisibilityFilters.ConfiguredVersions | src/devpi_constrained/main.py:76-81 | Over a table built from lines: no opinion on a project no line names. Otherwise each version is shown iff it satisfies the line naming the project. |
| VisibilityFilters.ConfiguredLinks | src/devpi_constrained/main.py:83-108 | Over a table built from lines: no opinion on the links of a project no line names. Otherwise the links are judged against the requirement of the line naming the project. |

## Left out

- Host wiring has no logic of its own and is not modelled. This covers:
  - the hook registration and the customizer class list (main.py:8, 111-113);
  - `readonly`, `get_possible_indexconfig_keys` and `get_default_config_items` (main.py:33-39).
- The cached `constraints` property (main.py:64-67) reads the host's stored configuration. The filters take the table as a parameter instead.
- Four helpers are foreign library code and are parameters of every operation, as fields of `Packaging.Library`:
  - the requirement parser and its `RequirementParseError`;
  - the PEP 440 `version in requirement` test;
  - `normalize_name`;
  - `splitext_archive`, of which only the base name is used.

  Nothing is assumed about them beyond their types.
- Constraints.ParseErrorMessage: the line is quoted with single quotes and no escaping. Python's `%r` escapes quotes, backslashes and control characters, and may use double quotes. A line holding such characters gets a different message in the source.
- Constraints.ParseConstraints: only a `RequirementParseError` from the parser is modelled, as its `Failure`. Any other exception the parser raises would escape `parse_constraints` without the " for '<line>'" suffix. `validate_config` would still report it, because it catches every exception.
- ConstrainedStage.ValidateConfig: raising `InvalidIndexconfig` is modelled as returning the non-empty message list. The unused `oldconfig` is kept as a parameter. A configuration missing the `constraints` or `bases` key is not modelled. In the source a missing `constraints` key is reported through the catch-all, and a missing `bases` key raises.
- ConstrainedStage.NormalizeIndexconfigValue: a value is either text or a list. A value of some other type, which the source would try to split, is not modelled.
- The message of a caught exception is modelled as the string the exception was built with.
- Generators are modelled as the full sequence they yield. How the host consumes the verdicts, lazily or combined with other customizers, is not part of this model.
