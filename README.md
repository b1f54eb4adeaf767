# mlox rule-file parser

mlox rule files are plain-text files of load-order rules for game mods. They are divided
into sections: a section starts at a comment line such as `; @mod2 [author2]` and takes
with it the run of `;` comment lines just before that line; the lines before the first
such header form the `_header` block. This project models, in Dafny, the part of the
rule-file manager that reads such a file:

- `MloxRuleManager.parse_rulefile` (src/mlox_rule_mgr/cli.py): one pass over the lines
  that cuts them into section versions and returns an insertion-ordered dict from
  section key to every version of that section (a repeated key collects more versions);
- the older inline loop of `split` (mlox_rule_mgr.py), which does the same pass but
  stores one line list per key, so a repeated key replaces what was stored;
- the two regular expressions that classify a line (`comment_regex`, `sectionname_regex`);
- `get_safe_filename`, which turns the text after `@` into the section key;
- `coalesce_lines` (join, then strip);
- the decisions `report` makes: whether there is a header, how many mod sections there
  are, whether their names are in case-insensitive order, and which names have other
  than one version.

Layout:

| file | module | what it holds |
|---|---|---|
| wrappers.dfy | Wrappers | `Option` |
| safe_name.dfy | SafeName | `get_safe_filename` and its properties |
| classify.dfy | Classify | the two regexes as scanners, proved equal to declarative patterns; `KindOf`, the classification of one line |
| coalesce.dfy | Coalesce | `"".join`, `str.strip`, `coalesce_lines` |
| ordered_dict.dfy | OrderedDict | the insertion-ordered dict: `get`, item assignment, `pop` |
| sectioning.dfy | Sectioning | the pass shared by both parsers (`Scan`, `Blocks`), the independent description of a correct cut (`IsSegmentation`) and its uniqueness |
| rule_file.dfy | RuleFile | `parse_rulefile`: the loop as a method, proved equal to grouping the versions (`Parse`), and grouping's properties |
| rule_file_example.dfy | RuleFileExample | the repeated `mod2 [author2]` sections of the repository's parser test, worked through |
| legacy_split.dfy | LegacySplit | the loop of `split`, proved equal to overwriting (`SplitParse`), and what overwriting loses |
| report.dfy | Report | `report`'s decisions, with a case-insensitive stable insertion sort on an array |

The line classifier is a parameter of the shared pass (`Sectioning.Classifier`), so the
facts about the cut into versions hold whatever the classifier is; the parsers apply
them to `Classify.KindOf`. Lines are the strings `readlines` returns, each with its
trailing newline. Python lists are modelled as sequences. The source never lets two
names share a mutable list it later changes (`section = comments` is followed by
`comments = list()`, and a stored section is never extended afterwards), so value
semantics loses nothing.

What the code does, in the points where a reader might expect otherwise:

- A section key is `get_safe_filename(group(1))` of the whole text after `@`: for
  `; @mod2 [author2]` it is `mod2author2`. No separate mod name or author is kept, and
  no line numbers are recorded (`line_num` at src/mlox_rule_mgr/cli.py:112 is unused).
- A comment line is any line whose first non-whitespace character is `;`: `re.match`
  anchors the pattern at the start of the line only.
- `report` counts distinct section keys, and checks the order of the distinct keys in
  first-appearance order.
- `report` always takes its "has a header" branch: the popped value is a list holding
  one version, which is truthy even when that version is empty.
- `report` prints no line numbers for repeated sections and does not print the section
  list, although its help text (src/mlox_rule_mgr/cli.py:364-367) mentions both; the
  model follows the code.

## Model

| member | source | states |
|---|---|---|
| SafeName.SafeFilename | src/mlox_rule_mgr/cli.py:57-58 | the result is no longer than the name and is made only of ASCII letters, digits, `.` and `-` |
| SafeName.SafeFilenameIsSubsequence | mlox_rule_mgr.py:38-39 | the result is obtained from the name by deleting characters |
| SafeName.SafeFilenameCounts | src/mlox_rule_mgr/cli.py:57-58 | every safe character survives exactly as often as it occurs in the name; no other character survives |
| SafeName.SafeFilenameOfSafe | src/mlox_rule_mgr/cli.py:57-58 | a name made only of safe characters is returned unchanged |
| SafeName.SafeFilenameIdempotent | src/mlox_rule_mgr/cli.py:57-58 | applying the filter twice gives the same as once |
| SafeName.SafeFilenameAppend | src/mlox_rule_mgr/cli.py:58 | filtering a concatenation is concatenating the filtered parts |
| SafeName.SafeFilenameDropsUnsafe | mlox_rule_mgr.py:38-39 | a name without safe characters filters to the empty string |
| SafeName.SafeFilenameNotHeaderKey | src/mlox_rule_mgr/cli.py:57-58 | no section header can produce the reserved key `_header`, because `_` is not safe |
| Classify.IsSpace | src/mlox_rule_mgr/cli.py:99-100 | the characters `\s` matches in a str pattern, the same ones `str.isspace` and `str.strip()` use; the definition |
| Classify.SkipSpaces | src/mlox_rule_mgr/cli.py:99 | the greedy `\s*`: the returned end bounds a whitespace run that the next character does not continue |
| Classify.SkipSemis | src/mlox_rule_mgr/cli.py:99 | the greedy `;+`: the returned end bounds a run of `;` that the next character does not continue |
| Classify.RestOfLine | src/mlox_rule_mgr/cli.py:100 | group 1's `(.*)`: a prefix without a newline that stops at the end or at the first newline |
| Classify.IsComment | src/mlox_rule_mgr/cli.py:99 | `comment_regex.match(line)` succeeds; the definition, characterised by `CommentMatchesPattern` |
| Classify.HeaderName | src/mlox_rule_mgr/cli.py:100 | `sectionname_regex.match(line)`: None, or group 1; the definition, characterised by `HeaderMatchesPattern` |
| Classify.CommentMatchesPattern | src/mlox_rule_mgr/cli.py:99 | `IsComment` holds exactly when whitespace then `;` start the line |
| Classify.HeaderMatchesPattern | src/mlox_rule_mgr/cli.py:100 | `HeaderName` returns `Some(name)` exactly when the line splits as whitespace, `;`+, whitespace, `@`, name up to the newline (both directions) |
| Classify.PatternGivesName | src/mlox_rule_mgr/cli.py:100 | any split of the line into the pattern's pieces gives that name as group 1 |
| Classify.NameGivesPattern | src/mlox_rule_mgr/cli.py:100 | a name returned by the scanner comes with a split of the line into the pattern's pieces |
| Classify.HeaderLineName | src/mlox_rule_mgr/cli.py:100 | for any whitespace and any number of `;`, the line `ws;…;ws@name\n` has group 1 = name |
| Classify.HeaderIsComment | src/mlox_rule_mgr/cli.py:99-100 | every header line also matches the comment pattern |
| Classify.KindOf | src/mlox_rule_mgr/cli.py:113-132 | a line is a header exactly when the header pattern matches, a held comment exactly when only the comment pattern matches, ordinary exactly when neither does; a header's key is the filtered group 1 and never `_header` |
| Coalesce.Strip | src/mlox_rule_mgr/cli.py:64 | the result is a slice of the text with only whitespace cut from either end, and neither starts nor ends with whitespace |
| Coalesce.TrimmedIsStrip | src/mlox_rule_mgr/cli.py:64 | any slice with those properties is the one `Strip` returns |
| Coalesce.StripIdempotent | src/mlox_rule_mgr/cli.py:64 | stripping a stripped text changes nothing |
| Coalesce.CoalesceLines | src/mlox_rule_mgr/cli.py:62-64 | the result is the joined lines with whitespace cut from both ends, neither end being whitespace |
| Coalesce.CoalesceIdempotent | src/mlox_rule_mgr/cli.py:62-64 | coalescing the coalesced text again gives the same text |
| Coalesce.Concat | src/mlox_rule_mgr/cli.py:63 | `"".join(lines)`, the definition; no lines join to the empty text |
| OrderedDict.Get | src/mlox_rule_mgr/cli.py:120 | `d.get(k, default)`: the definition; what get, append and store do together is stated by `RuleFile.StoreNew` and `RuleFile.StoreOld` |
| OrderedDict.Put | src/mlox_rule_mgr/cli.py:122 | item assignment updates the map, appends a new key to the order, keeps an existing key's place, and keeps the dict well formed |
| OrderedDict.Pop | src/mlox_rule_mgr/cli.py:246 | `pop(k, None)` returns the value k had, or None, and the dict without k: an absent k leaves the keys as they were, and a present k is cut out of its one place, the other keys keeping their order |
| OrderedDict.WithoutOrder | src/mlox_rule_mgr/cli.py:246 | removing an absent key from the key order changes nothing; removing a key listed once cuts out exactly that position |
| OrderedDict.PopValid | src/mlox_rule_mgr/cli.py:246 | popping keeps the dict well formed |
| OrderedDict.PopFirst | src/mlox_rule_mgr/cli.py:246-253 | popping the first key leaves the other keys in their order |
| OrderedDict.WithoutDistinct | src/mlox_rule_mgr/cli.py:246 | removing a key from duplicate-free keys keeps them duplicate-free |
| OrderedDict.SumOverPut | src/mlox_rule_mgr/cli.py:122 | how an item assignment changes a sum over the dict's values |
| Sectioning.ScanSnoc | src/mlox_rule_mgr/cli.py:112 | reading one more line is one more step of the loop body |
| Sectioning.Step | src/mlox_rule_mgr/cli.py:113-141 | one iteration of the loop body: the header, comment and other branches; the definition, characterised with `Scan` by `BlocksSegmentation` and `BlocksUnique` |
| Sectioning.Scan | src/mlox_rule_mgr/cli.py:112-141 | the loop state after the given lines; the definition |
| Sectioning.Close | src/mlox_rule_mgr/cli.py:143-148 | after the loop, the held comments join the open section, which is closed; the definition |
| Sectioning.Blocks | src/mlox_rule_mgr/cli.py:112-148 | all versions in closing order; the definition, characterised by `BlocksSegmentation` and `BlocksUnique` |
| Sectioning.BlocksOfNothing | src/mlox_rule_mgr/cli.py:108-148 | no lines give the single empty `_header` version |
| Sectioning.StepHeaderInv | src/mlox_rule_mgr/cli.py:115-131 | a header line closes the open section and opens a version made of the held comments and the header, keeping the loop invariant |
| Sectioning.StepCommentInv | src/mlox_rule_mgr/cli.py:132-135 | a comment line is held back, keeping the loop invariant |
| Sectioning.StepOrdinaryInv | src/mlox_rule_mgr/cli.py:136-141 | any other line flushes the held comments into the open section and joins it, keeping the loop invariant |
| Sectioning.ScanKeepsInv | src/mlox_rule_mgr/cli.py:112-141 | after any lines the loop state is a segmentation of what was read, plus held comments |
| Sectioning.BlocksSegmentation | src/mlox_rule_mgr/cli.py:112-148 | the versions give back the file in order; `_header` comes first without headers; every later version is comments, its header, non-headers; comments before a header never stay in the version before it |
| Sectioning.SegmentationUnique | src/mlox_rule_mgr/cli.py:112-148 | two segmentations of the same lines are equal |
| Sectioning.BlocksUnique | src/mlox_rule_mgr/cli.py:112-148 | any segmentation of the lines is exactly the parser's cut |
| Sectioning.SegmentationShape | src/mlox_rule_mgr/cli.py:128-148 | the last version of any segmentation starts at the comment run before the file's last header and has that header's key |
| Sectioning.HeaderBlock | src/mlox_rule_mgr/cli.py:108-141 | the `_header` block is a prefix without headers; it is the whole file when there is no header, and otherwise ends just before the comment run leading to the first header |
| RuleFile.Store | src/mlox_rule_mgr/cli.py:120-122 | saving a version keeps the dict well formed |
| RuleFile.Group | src/mlox_rule_mgr/cli.py:105-148 | `sections` after each closed version is saved by get, append and store; the definition, characterised by `GroupVersions` and `GroupKeys` |
| RuleFile.Parse | src/mlox_rule_mgr/cli.py:103-150 | what `parse_rulefile` returns; the definition, characterised by `ParseVersions`, `GroupKeys`, `ParseHeader` and `ParseOfSegmentation` |
| RuleFile.StoreNew | src/mlox_rule_mgr/cli.py:120-122 | saving under a new key appends the key with a single version |
| RuleFile.StoreOld | src/mlox_rule_mgr/cli.py:120-122 | saving under a present key appends one version and keeps the key order |
| RuleFile.GroupVersions | src/mlox_rule_mgr/cli.py:120-148 | a key holds exactly the versions with that key, in file order, and is present exactly when some version has it |
| RuleFile.GroupKeys | src/mlox_rule_mgr/cli.py:120-122 | the dict's key order is the keys in order of first appearance |
| RuleFile.FirstSeenMembers | src/mlox_rule_mgr/cli.py:120-122 | a key is listed exactly when some version has it |
| RuleFile.GroupOrder | src/mlox_rule_mgr/cli.py:120-122 | wherever the j-th key occurs, every earlier key has occurred before it |
| RuleFile.FirstSeenOrder | src/mlox_rule_mgr/cli.py:120-122 | the same order property for the first-appearance list |
| RuleFile.GroupFirstKey | src/mlox_rule_mgr/cli.py:108-122 | the first key is the key of the first version |
| RuleFile.GroupTotal | src/mlox_rule_mgr/cli.py:120-122 | the dict holds as many lines as the versions; which lines each key holds is `GroupVersions` |
| RuleFile.BlockKeys | src/mlox_rule_mgr/cli.py:108-126 | only the first version has the key `_header` |
| RuleFile.VersionShape | src/mlox_rule_mgr/cli.py:115-132 | every version after `_header` is held comments, one header line whose filtered name is its key, then non-header lines; `_header` holds no header line |
| RuleFile.ParseHeader | src/mlox_rule_mgr/cli.py:108-148 | `_header` is always the first key and has exactly one version, the header block |
| RuleFile.ParseEmpty | src/mlox_rule_mgr/cli.py:105-148 | an empty file gives `{"_header": [[]]}` |
| RuleFile.ParseKeepsAllLines | src/mlox_rule_mgr/cli.py:112-148 | the versions, in closing order, give back the file, and the dict holds as many lines as the file |
| RuleFile.ParseVersions | src/mlox_rule_mgr/cli.py:120-148 | in the parsed file a key holds its versions in file order and is listed exactly when some version has it |
| RuleFile.ParseOfSegmentation | src/mlox_rule_mgr/cli.py:103-150 | the parse stores exactly the one segmentation of the file |
| RuleFile.ParseRulefile | src/mlox_rule_mgr/cli.py:103-150 | the loop, with its get, append and store and its final flush, returns `Parse(lines)` |
| RuleFileExample.HeaderKeyOf | src/mlox_rule_mgr/cli.py:126 | for a name and an author made only of ASCII letters, digits, `.` and `-`, separated by characters that are not, the key of the header is the two run together |
| RuleFileExample.Mod2Key | tests/test_cli.py:48 | however many spaces follow `mod2`, the key is `mod2author2` |
| RuleFileExample.FirstMod2Header | tests/test_cli.py:58 | `; @mod2 [author2]` is a header with key `mod2author2` |
| RuleFileExample.SecondMod2Header | tests/test_cli.py:59 | `;; @mod2   [author2]` is a header with the same key |
| RuleFileExample.ContentLine | src/mlox_rule_mgr/cli.py:136 | a line starting with neither whitespace nor `;` is ordinary content |
| RuleFileExample.RepeatedKeyBlocks | src/mlox_rule_mgr/cli.py:115-148 | comment, header, content twice with the same key cuts into an empty `_header` and two versions |
| RuleFileExample.ParseRepeatedKey | src/mlox_rule_mgr/cli.py:120-122 | a repeated key collects both versions, in file order, after an empty `_header` |
| RuleFileExample.TestFileExample | tests/test_cli.py:46-64 | a six-line file reduced from the test file: a `;` banner, the test's two `mod2 [author2]` header lines, each followed by one content line; it parses to an empty `_header` and `mod2author2` with two versions, as the test expects for that key |
| LegacySplit.Overwrite | mlox_rule_mgr.py:134 | storing the versions one after another keeps the dict well formed |
| LegacySplit.SplitParse | mlox_rule_mgr.py:114-158 | what the loop of `split` leaves in `sections`; the definition, characterised by `OverwriteKeepsLast` and `SplitHeader` |
| LegacySplit.OverwriteKeepsLast | mlox_rule_mgr.py:134-158 | the keys are those of the grouping parser, in first-appearance order, and each key holds only the lines of its last version |
| LegacySplit.SplitHeader | mlox_rule_mgr.py:123-158 | `_header` is always the first key and holds the header block |
| LegacySplit.OverwriteTotal | mlox_rule_mgr.py:134-158 | with all keys distinct, each version's key holds exactly that version's lines, and the dict holds as many lines as the versions |
| LegacySplit.SplitKeepsAllLines | mlox_rule_mgr.py:127-158 | when no section key repeats, the dict holds as many lines as the file |
| LegacySplit.SplitSections | mlox_rule_mgr.py:114-158 | the loop of `split` returns `SplitParse(lines)` |
| Report.LessIrreflexive | src/mlox_rule_mgr/cli.py:261 | no name sorts before itself |
| Report.Lower | src/mlox_rule_mgr/cli.py:261 | `str.lower` on ASCII text, the sort key; the definition |
| Report.Less | src/mlox_rule_mgr/cli.py:261 | Python's `<` on strings; the definition, a strict total order by `LessIrreflexive`, `LessAsymmetric`, `LessTransitive` and `LessTotal` |
| Report.LessAsymmetric | src/mlox_rule_mgr/cli.py:261 | string order is asymmetric |
| Report.LessTransitive | src/mlox_rule_mgr/cli.py:261 | string order is transitive |
| Report.LessTotal | src/mlox_rule_mgr/cli.py:261 | any two different strings are ordered one way |
| Report.SortedCIPairwise | src/mlox_rule_mgr/cli.py:262 | names in order by neighbours are in order by every pair |
| Report.SwapStep | src/mlox_rule_mgr/cli.py:261 | one exchange of the insertion sort keeps its order invariant and the multiset |
| Report.SortCaseInsensitive | src/mlox_rule_mgr/cli.py:260-261 | the array ends non-decreasing under lower-casing, is a permutation of what it held, keeps names equal under lower-casing in their relative order (stability), and is left unchanged when it was already in order |
| Report.WithLower | src/mlox_rule_mgr/cli.py:261 | the names with a given lower-cased form, in order; the definition of a tie class |
| Report.WithLowerAppend | src/mlox_rule_mgr/cli.py:261 | the tie class of a concatenation is the concatenation of the tie classes |
| Report.SwapKeepsTies | src/mlox_rule_mgr/cli.py:261 | exchanging neighbours with different lower-cased forms keeps every tie class |
| Report.StableOrderUnique | src/mlox_rule_mgr/cli.py:261 | two orders that are both sorted under lower-casing and keep every tie class in the same order are equal, so the sort's contract fixes its result: the one a stable `sort(key = str.lower)` gives |
| Report.SameLastName | src/mlox_rule_mgr/cli.py:261 | two such orders end in the same name |
| Report.IsSortedCI | src/mlox_rule_mgr/cli.py:260-262 | sorting a copy and comparing says true exactly when the names are in case-insensitive order |
| Report.SectionNames | src/mlox_rule_mgr/cli.py:246-253 | `list(sections.keys())` after `_header` is popped; the definition, characterised by `SectionNamesAre` |
| Report.SectionNamesAre | src/mlox_rule_mgr/cli.py:246-257 | after popping `_header`, the names are the remaining keys in order, each once, exactly the file's section keys, and as many as there are distinct keys |
| Report.SectionNamesSafe | src/mlox_rule_mgr/cli.py:126 | every section name is a safe filename, made of ASCII letters, digits, `.` and `-` |
| Report.DistinctCard | src/mlox_rule_mgr/cli.py:257 | a duplicate-free list has as many elements as its set |
| Report.TailSet | src/mlox_rule_mgr/cli.py:246-253 | the rest of a duplicate-free list holds all elements but the first |
| Report.WarningsOf | src/mlox_rule_mgr/cli.py:267-270 | the names whose number of versions is not 1, with that number, in the order listed; the definition, characterised by `WarningsOfIn` |
| Report.Warnings | src/mlox_rule_mgr/cli.py:267-270 | the warnings for a file's section names; the definition, characterised by `WarningsAre` |
| Report.WarningsOfIn | src/mlox_rule_mgr/cli.py:267-270 | a name is warned about exactly when it is listed and its number of versions is not 1, with that number |
| Report.WarningsAre | src/mlox_rule_mgr/cli.py:267-270 | a warning names exactly each section key with more than one version, with the number of versions in the file |
| Report.CollectWarnings | src/mlox_rule_mgr/cli.py:267-270 | the loop over the names returns `WarningsOf(names, d)` |
| Report.Report | src/mlox_rule_mgr/cli.py:244-270 | the header message is always the "has a header" one; the count is the number of distinct section keys; "sorted" holds exactly when the names are in case-insensitive order; the warnings are `Warnings(lines)` |

## Left out

- Reading and writing files (`textfile_reader_factory`, `textfile_writer_factory`, `open`, `readlines`): the model starts from the list of lines `readlines` returns.
- `split`'s path handling, output-directory check and per-key file writes (src/mlox_rule_mgr/cli.py:201-222, mlox_rule_mgr.py:104-110, 160-166): file-system I/O; only the parsing loop is modelled.
- `merge` (src/mlox_rule_mgr/cli.py:154-182, mlox_rule_mgr.py:56-85): `glob.glob` and file I/O; its join-and-strip step is `Coalesce.CoalesceLines`; its `sort(key = str.lower)` of file names, which need not be ASCII, is not modelled.
- The `print` and `json.dumps` calls of `report` and the `entries` join at src/mlox_rule_mgr/cli.py:255: the messages are replaced by the values in `Report.Summary`; a warning's count uses the number of versions, which the join does not change.
- `run`'s `getattr` dispatch, `parse_args`, logging set-up and `fib`: reflection, argument parsing and leftover template code with no rule-file logic.
- Python's regex engine: both patterns are written as hand-made scanners and proved equal to declarative descriptions of what they match; whitespace is the set `str.isspace` accepts, written out in `Classify.IsSpace`.
- Report.Lower: lower-cases ASCII letters only, not all of Unicode as `str.lower` does; section names are safe filenames (`Report.SectionNamesSafe`), made of ASCII letters, digits, `.` and `-`, so for them the two agree.
- Report.SortCaseInsensitive: an insertion sort instead of Python's Timsort; the contract states sortedness, permutation and stability, which determine the result (`Report.StableOrderUnique`), so both give the same order.
