# Verified model of the user-story → issue script

`scripts/create-github-issues.py` turns user-story markdown files into issue
drafts. For each story it parses the file (story id from the file name,
scalar fields with defaults, nine free-text sections), derives an ordered
list of labels from a static metadata table and a completed-stories set,
and assembles an issue body from the non-empty sections. This project
models those three computations and the per-story step that connects
them. Each one is a Dafny method that builds its result the way the
script does: by appending to a local list, or by filling a dictionary in a
loop. Each method is proved equal to a specification function, and lemmas
state what the script promises about that function.

Modules:

- `Wrappers` (`wrappers.dfy`): `Option`. It models an absent regular-expression match and a missing dictionary key.
- `Text` (`text.dfy`): the Python string operations the script uses. These are `sub in s`, `sep.join`, `s.split(c)`, `str(int)` with its inverse, and `str.strip()`, each with its defining property.
- `Sections` (`sections.dfy`): the nine sections, their headings and their canonical order.
- `StoryParser` (`story_parser.dfy`): the non-regex part of `parse_markdown_file`.
- `IssueBody` (`issue_body.dfy`): `generate_issue_body`.
- `Labels` (`labels.dfy`): `COMPLETED_STORIES` and `get_labels`.
- `Issues` (`issues.dfy`): one iteration of the driver loop in `create_issues_from_directory`, without the printing.

Two consequences of the code that are easy to miss:

- US-004 is in `COMPLETED_STORIES` (line 31), so its labels contain `status:complete`. `Labels.CompletedCorePackageExample` states its whole label list.
- The `sp` and `sprint` tests at lines 175, 180 and 195-199 use Python truthiness. An entry of `0` therefore gives no `sp-`/`sprint-` label, and a sprint of `0` falls through to `priority:p3`. A negative sprint is truthy and below 2, so it gets `priority:p0`.

## Model

| member | source | states |
|---|---|---|
| `Text.Contains` | scripts/create-github-issues.py:185-192 | `sub in s` holds exactly when `sub` occurs at some index of `s` |
| `Text.Join` | scripts/create-github-issues.py:160 | `sep.join(parts)` starts with the first part, and it is empty exactly when every part is empty and no separator is written |
| `Text.JoinAppend` | scripts/create-github-issues.py:160 | joining a concatenation of two non-empty lists puts exactly one separator at the seam |
| `Text.JoinInsert` | scripts/create-github-issues.py:160 | inserting one part makes the joined string longer by that part, plus one separator unless the list was empty |
| `Text.Split` | scripts/create-github-issues.py:75 | `s.split(c)` gives at least one piece, and no piece contains `c` |
| `Text.SplitJoin` | scripts/create-github-issues.py:75-76 | re-joining the pieces of a split with the separator gives back the original string |
| `Text.JoinSplit` | scripts/create-github-issues.py:75-76 | splitting a join of separator-free pieces gives back those pieces |
| `Text.NatToString` | scripts/create-github-issues.py:176 | `str(n)` for `n >= 0` is non-empty, all decimal digits, with no leading zero |
| `Text.IntToString` | scripts/create-github-issues.py:176 | `str(n)` starts with '-' exactly when `n` is negative |
| `Text.IntToStringRoundTrip` | scripts/create-github-issues.py:176 | `int(str(n)) == n` |
| `Text.IntToStringInjective` | scripts/create-github-issues.py:176-181 | different numbers print differently, so `sp-<n>` and `sprint-<n>` determine `n` |
| `Text.Strip` | scripts/create-github-issues.py:113 | `strip()` returns a contiguous middle of the string; everything cut off is whitespace, and the result neither starts nor ends with whitespace |
| `Text.StripIdempotent` | scripts/create-github-issues.py:113 | stripping twice is stripping once |
| `Sections.Heading` | scripts/create-github-issues.py:99-107 | definition: the heading text of each section, as in the section patterns and the body blocks (lines 126-158) |
| `Sections.HeadingInjective` | scripts/create-github-issues.py:99-107 | no two sections share a heading, so each heading names one section |
| `Sections.Position` | scripts/create-github-issues.py:98-108 | every section has a place in the canonical order |
| `Sections.SectionOrderIsPermutation` | scripts/create-github-issues.py:124-158 | the canonical order lists each of the nine sections exactly once |
| `StoryParser.StoryIdSpec` | scripts/create-github-issues.py:75-76 | the id is a prefix of the file stem with at most one '-'; it is either the whole stem or the part before the stem's second '-' |
| `StoryParser.StoryIdUnique` | scripts/create-github-issues.py:75-76 | exactly one string meets that description, so it pins the id down |
| `StoryParser.StoryIdExample` | scripts/create-github-issues.py:75-76 | the stem "US-001-core-setup" gives the id "US-001" |
| `StoryParser.StoryId` | scripts/create-github-issues.py:75-76 | definition: `"-".join(stem.split("-")[0:2])`; what it yields is stated by `StoryIdSpec` |
| `StoryParser.SectionText` | scripts/create-github-issues.py:110-115 | a section with no match is "". A matched one is its capture with only whitespace cut from both ends, and it neither starts nor ends with whitespace |
| `StoryParser.ParseStory` | scripts/create-github-issues.py:75-115 | the id follows the stem rule. A matched title, status, category, effort or sprint is its captured text. An absent title becomes "Unknown Title" and an absent status "❌ Not Started". An absent category, effort or sprint becomes "Unknown". Every section key is set: a matched section to its stripped capture, a missing one to "" |
| `StoryParser.ParseMarkdownFile` | scripts/create-github-issues.py:82-117 | the loop over the section patterns fills the dictionary with exactly the record `ParseStory` describes |
| `IssueBody.Present` | scripts/create-github-issues.py:125-157 | definition: `sections.get(key)` is truthy, i.e. the key is there and its text is not "" |
| `IssueBody.Block` | scripts/create-github-issues.py:126 | a block starts with "## " and is never empty |
| `IssueBody.Kept` | scripts/create-github-issues.py:125-157 | only present sections (key there, text non-empty) are kept, and at most as many as were looked at |
| `IssueBody.KeptComplete` | scripts/create-github-issues.py:125-157 | every present section among the keys is kept |
| `IssueBody.BlocksOf` | scripts/create-github-issues.py:126-158 | definition: the blocks of a list of sections, in list order; its ensures spells the definition out index by index, and the promises about the body's blocks are in `BlocksFollowSections` |
| `IssueBody.Body` | scripts/create-github-issues.py:122-160 | specification: the blocks of the present sections in canonical order, joined by "\n\n"; its properties are the lemmas below |
| `IssueBody.KeptOrdered` | scripts/create-github-issues.py:122-158 | keeping a subset never reorders: kept sections stay in canonical order |
| `IssueBody.GenerateIssueBody` | scripts/create-github-issues.py:120-160 | appending the blocks in order and then joining them gives the body `Body` describes |
| `IssueBody.BlocksFollowSections` | scripts/create-github-issues.py:122-158 | the body has one block per present section and none for the others, each block with its own text, in canonical order, at most nine |
| `IssueBody.BlockIffPresent` | scripts/create-github-issues.py:125-158 | a section is kept exactly when it is present, and then its block is among the body's blocks |
| `IssueBody.BodyEmptyIffNoSections` | scripts/create-github-issues.py:122-160 | the body is "" exactly when every section is empty or missing |
| `IssueBody.AllSectionsPresent` | scripts/create-github-issues.py:124-158 | with all nine present there are nine blocks, the i-th being the block of the i-th section in canonical order |
| `IssueBody.KeptAfterClearingAbsent` | scripts/create-github-issues.py:125-157 | clearing a section that was not kept changes nothing |
| `IssueBody.KeptAppend` | scripts/create-github-issues.py:124-158 | the section checks are independent: filtering distributes over concatenation |
| `IssueBody.KeptAfterClearingPresent` | scripts/create-github-issues.py:125-157 | clearing a present section removes exactly its key from the kept list and keeps the rest in place |
| `IssueBody.BlocksAfterRemoval` | scripts/create-github-issues.py:126-158 | removing one key removes exactly its block, and every other block is unchanged |
| `IssueBody.ClearingRemovesOneBlock` | scripts/create-github-issues.py:122-158 | clearing a present section removes exactly its block and leaves every other block unchanged; clearing an absent one changes nothing |
| `IssueBody.ClearingShortensBody` | scripts/create-github-issues.py:160 | clearing a present section shortens the body by its block and one "\n\n" separator, or by the block alone if it was the only one |
| `Labels.MetadataFor` | scripts/create-github-issues.py:238 | definition: `STORY_METADATA.get(story_id, {})`, its two cases written out as ensures; the consequence for the labels is `MissingMetadataLabels` |
| `Labels.Truthy` | scripts/create-github-issues.py:175-199 | definition: Python truthiness of an int entry (`if sp:`, `if sprint:`): present and not 0 |
| `Labels.StatusLabel` | scripts/create-github-issues.py:168-171 | the status label is "status:complete" exactly for ids in `COMPLETED_STORIES` |
| `Labels.StoryPointsLabel` | scripts/create-github-issues.py:176 | `sp-<n>` is a story-point label and is not mistaken for any other family |
| `Labels.SprintLabel` | scripts/create-github-issues.py:181 | `sprint-<n>` is a sprint label and is not mistaken for any other family |
| `Labels.CategoryLabel` | scripts/create-github-issues.py:184-192 | the routed label, when there is one, is one of the four category labels |
| `Labels.PriorityLabel` | scripts/create-github-issues.py:195-202 | the priority ladder always yields a priority label |
| `Labels.LabelsFor` | scripts/create-github-issues.py:165-204 | specification: the list in the order the script appends to it; its properties are the lemmas below |
| `Labels.GetLabels` | scripts/create-github-issues.py:163-204 | the appends build exactly the list `LabelsFor` describes |
| `Labels.AppendKeepsKindsIncreasing` | scripts/create-github-issues.py:165-202 | appending a label of a later family keeps the families in order |
| `Labels.LabelsShape` | scripts/create-github-issues.py:165-204 | the list has 3 to 6 labels. It starts with "user-story" and then the status label, and ends with the priority label. The families appear in the fixed order base, status, sp, sprint, category, priority, each at most once |
| `Labels.LabelsDistinct` | scripts/create-github-issues.py:165-204 | no label is emitted twice |
| `Labels.StatusRule` | scripts/create-github-issues.py:168-171 | the second label is the only status label. It is "status:complete" exactly when the id is in the completed set, and "status:not-started" exactly when it is not |
| `Labels.StoryPointsRule` | scripts/create-github-issues.py:174-176 | `sp-<n>` is emitted exactly when `sp` is present and equal to a non-zero `n`, and then it is the third label, right after the status label |
| `Labels.SprintRule` | scripts/create-github-issues.py:179-181 | `sprint-<n>` is emitted exactly when `sprint` is present and equal to a non-zero `n`. It comes right after the sp label if there is one, otherwise right after the status label |
| `Labels.CategoryRule` | scripts/create-github-issues.py:184-192 | a category label appears exactly when routing picks one. It is then the only category label, second to last, and it is the routed label. An absent category routes as "" |
| `Labels.PriorityRule` | scripts/create-github-issues.py:195-202 | exactly one priority label, and it is the last one |
| `Labels.MissingMetadataLabels` | scripts/create-github-issues.py:238 | a story missing from the table gets exactly ["user-story", its status label, "priority:p3"] |
| `Labels.FirstMatch` | scripts/create-github-issues.py:185-192 | first-match routing gives the target of the first route whose keywords match, and none when no route matches |
| `Labels.CategoryLabelIsFirstMatch` | scripts/create-github-issues.py:185-192 | the `if`/`elif` chain equals first-match routing over the table Core Package > Extension Package > Testing or Samples > Documentation |
| `Labels.TestingBeatsDocumentation` | scripts/create-github-issues.py:189-191 | "Testing & Documentation" is routed to "testing", not "documentation" |
| `Labels.ThresholdsBelow` | scripts/create-github-issues.py:195-202 | counts at most as many thresholds as there are |
| `Labels.ThresholdsBelowMonotone` | scripts/create-github-issues.py:195-202 | a larger sprint lies above at least as many thresholds |
| `Labels.PriorityIsThresholdCount` | scripts/create-github-issues.py:195-202 | for a truthy sprint, the `elif` ladder gives `priority:p<k>`, where k is how many of 2, 4, 8 the sprint exceeds; a falsy sprint gives p3 |
| `Labels.PriorityMonotone` | scripts/create-github-issues.py:195-202 | a later non-zero sprint never gets a higher priority |
| `Labels.PriorityBands` | scripts/create-github-issues.py:195-202 | a non-zero sprint ≤ 2, negatives included, gives p0. 3-4 gives p1 and 5-8 gives p2. A sprint above 8, 0 or absent gives p3. Each band holds in both directions |
| `Labels.CompletedCorePackageExample` | scripts/create-github-issues.py:27-40 | US-004 with its table entry gets ["user-story","status:complete","sp-8","sprint-2","core-package","priority:p0"] |
| `Issues.IssueFor` | scripts/create-github-issues.py:234-242 | specification: the issue one story file gives: parsed record, title, labels from the table entry, body |
| `Issues.PrepareIssue` | scripts/create-github-issues.py:233-242 | parsing, then label lookup, then body assembly together give the issue `IssueFor` describes |
| `Issues.LabelsIgnoreFileContents` | scripts/create-github-issues.py:234-239 | the labels depend only on the file stem and the metadata table, never on the sprint or category written in the file |
| `Issues.ParsedSection` | scripts/create-github-issues.py:110-115 | every parsed section key is set, to the stripped capture or "" |
| `Issues.SectionBlockIffText` | scripts/create-github-issues.py:110-158 | a section gets a block in the issue body exactly when its heading was found and its stripped text is non-empty, and that block carries the stripped text |
| `Issues.NoSectionsEmptyBody` | scripts/create-github-issues.py:110-160 | a file with none of the nine headings gives an empty body |

## Left out

- Regular-expression matching (lines 79, 85-88, 99-111) is not modelled. This covers the title pattern, the four `**Field**:` patterns and the section patterns with `\s*\n`, the lazy `(.*?)` and the `(?=\n## |\Z)` lookahead. Each match result is an input: an `Option<string>` for the title and scalar fields, and a map from section to raw captured text. `str.strip()` applied to a capture is modelled.
- The title pattern accepts any `US-\d+` id, not necessarily the file's own. With the match as an input, the model does not relate the two.
- File reading, directory globbing and sorting, and `Path` handling (lines 72, 229, 272-278, 294-296) are filesystem I/O. The file stem is an input.
- Console output, the dry-run flag, the disabled issue-tracker integration and the summary counts (lines 210-226, 231, 244-266, 281-297) are printing and a stubbed network call.
- The contents of `STORY_METADATA` (lines 36-67) are static data. The table is a parameter of type `map<string, Metadata>`. Its US-004 entry is used as a concrete case.
- Python's dynamic typing: metadata values are taken to be ints for `sp` and `sprint` and a string for `category`, as every table entry is. Truthiness of other value types is not modelled.
- `generate_issue_body` writes its nine `if` tests out one after another. `IssueBody.GenerateIssueBody` loops over the canonical section order instead, which runs the same tests in the same order.
- `Issues.IssueTitle` (line 241) is a plain format string and carries no contract of its own.
