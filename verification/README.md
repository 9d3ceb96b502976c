# code_analyzer — a Dafny model of the line and token counter

`code_analyzer.py` walks a project tree and measures each source file. It skips binary files and strips comments and blank lines. It then counts the remaining logical lines and the tokens of the raw text, and sums these overall and per file extension. This project models that pipeline in Dafny and proves what it computes:

- `Text` holds the Python string operations the analyzer relies on (`strip`, `lstrip('.')`, `split('\n')`, `'\n'.join`, `find`, ASCII `lower`). Each comes with its shape lemmas and the split/join round trips.
- `CommentRules` holds the `COMMENT_PATTERNS` table as data (`Line(marker)` / `Block(open, close)` rules in named groups) and `get_comment_pattern` as a first-match lookup. It proves the lookup picks the unique group naming the dot-stripped extension, and that the `'.*?' in pattern` test tells block rules from line rules.
- `CommentStripper` holds `remove_comments` as a method built from its four loops: block rules over the whole text, the loop over the lines, the whole-line-comment search with its `break` inside it, and inline cutting. Each loop is proved against a specification function. The lemmas state:
  - what a block rule deletes;
  - which lines are dropped;
  - that kept lines are non-blank, newline-free and in input order;
  - the line count `len(clean.split('\n'))`.
- `FileAnalysis` holds `is_binary_file`, `os.path.splitext` and `analyze_file` as a method. The token counter is a parameter.
- `ProjectAnalysis` holds:
  - the pruned pre-order walk;
  - the extension filter;
  - the aggregation loop of `analyze_project`, as methods proved against `ReportOf` of the counted measurements;
  - lemmas showing that the report's totals and per-extension entries are the sums they claim to be.
- `Cli` holds the extension normalisation of `main` and `format_number` with its read-back round trip.

The comment stripping is as naive as the source: a marker inside a string literal (`"http://…"`) starts a comment too. An empty or comment-only text file still counts one line of code: its cleaned text is empty, and splitting it yields one empty piece (`FileAnalysis.NoCodeCountsOneLine`).

## Model

| member | source | states |
|---|---|---|
| Text.LStripShape | code_analyzer.py:85 | `strip` removes only whitespace from the front and leaves a suffix that is empty or starts with a non-space |
| Text.RStripShape | code_analyzer.py:85 | `strip` removes only whitespace from the back and leaves a prefix that is empty or ends with a non-space |
| Text.BlankIffAllSpace | code_analyzer.py:86 | `not line.strip()` holds exactly when every character of the line is whitespace |
| Text.LStripChar | code_analyzer.py:65 | `lstrip('.')` removes exactly the leading dots and leaves a suffix not starting with a dot |
| Text.FindFrom | code_analyzer.py:78 | the search returns the leftmost occurrence at or after the start, or none when there is no occurrence |
| Text.Split | code_analyzer.py:81 | `split('\n')` yields at least one piece and no piece holds the separator |
| Text.SplitJoin | code_analyzer.py:123 | splitting the join of separator-free pieces gives the pieces back |
| Text.JoinSplit | code_analyzer.py:81 | joining the pieces of a split restores the text |
| Text.Lower | code_analyzer.py:117 | lower-casing keeps the length and maps each character by ASCII `lower` |
| Text.LowerIsLower | code_analyzer.py:169 | a lower-cased extension holds no upper-case letter, and lower-casing is idempotent |
| CommentRules.Names | code_analyzer.py:67 | the predicate modelling the anchored match `^(key)$`: the extension is one of the group's names, or one of them followed by the single trailing newline `$` admits |
| CommentRules.FirstMatch | code_analyzer.py:66-68 | the result is empty or the rules of a group at or after the start that names the extension |
| CommentRules.GetCommentPattern | code_analyzer.py:63-69 | the result is empty or the rules of a table group naming the dot-stripped extension |
| CommentRules.TableRulesShape | code_analyzer.py:31-40 | of the `Table` constant, which lists the groups in dictionary order: every group's delimiters are non-empty and every group has at most one line rule |
| CommentRules.LookedUpRulesWellFormed | code_analyzer.py:73 | whatever the extension, the rule list returned has non-empty delimiters |
| CommentRules.TableNamesDisjoint | code_analyzer.py:31-40 | no extension name belongs to two groups and no name holds a newline |
| CommentRules.NamedByOneGroup | code_analyzer.py:66-67 | the anchored match of an extension succeeds for at most one group |
| CommentRules.DispatchNamed | code_analyzer.py:63-68 | an extension named by a group, with any number of leading dots, gets exactly that group's rules |
| CommentRules.DispatchUnnamed | code_analyzer.py:69 | an extension named by no group gets no rules |
| CommentRules.DispatchPython | code_analyzer.py:32 | `.py` gets `#` and the two triple-quote block rules, in table order |
| CommentRules.DispatchManyDots | code_analyzer.py:65 | `..sh` is looked up as `sh` and gets the `#` rule |
| CommentRules.DispatchMarkdown | code_analyzer.py:38 | `.md` is in the table and gets no rules |
| CommentRules.DispatchJson | code_analyzer.py:39 | `.json` is in the table and gets no rules |
| CommentRules.DispatchUnknown | code_analyzer.py:69 | `.txt` is in no group and gets no rules |
| CommentRules.Escape | code_analyzer.py:33 | escaping a delimiter adds no `?` |
| CommentRules.BlockIffLazy | code_analyzer.py:77 | for a rule whose delimiters hold no `?`, the `'.*?' in pattern` test holds exactly for block rules |
| CommentRules.TableBlockIffLazy | code_analyzer.py:77 | in the table, the `'.*?' in pattern` test picks out exactly the block rules |
| CommentStripper.DeleteSpans | code_analyzer.py:78 | the lazy `DOTALL` substitution never lengthens the text |
| CommentStripper.OpenerFreePrefix | code_analyzer.py:78 | text before the first opener passes through the substitution unchanged |
| CommentStripper.NoOpenerUnchanged | code_analyzer.py:78 | a text with no opener is unchanged |
| CommentStripper.NoCloserUnchanged | code_analyzer.py:78 | an unterminated opener is left in place: a text with no closer is unchanged |
| CommentStripper.SpanDeleted | code_analyzer.py:75-78 | a span from an opener to the first closer after it, newlines included, is deleted whole; the text around it survives and scanning resumes after the closer |
| CommentStripper.StripBlocks | code_analyzer.py:76-78 | the block substitutions never lengthen the text, and a rule list without block rules leaves it unchanged |
| CommentStripper.StripBlocksEmpty | code_analyzer.py:76-78 | block rules leave the empty text empty |
| CommentStripper.Cut | code_analyzer.py:100 | inline removal keeps the prefix before the first marker occurrence, changes a marker-free line not at all, and leaves no marker |
| CommentStripper.CutAtFirstOfOverlapping | code_analyzer.py:100 | `///x` cut at `//` leaves the empty line: the cut is at the first of overlapping occurrences |
| CommentStripper.CutInline | code_analyzer.py:98-100 | cutting by all line rules leaves a prefix of the line |
| CommentStripper.CutInlineRemovesMarkers | code_analyzer.py:98-100 | after the cuts, no line rule's marker occurs in the line |
| CommentStripper.CleanLine | code_analyzer.py:85-104 | a blank line is dropped, and a kept line is a non-blank prefix of the line |
| CommentStripper.CleanLineShape | code_analyzer.py:85-104 | a kept line is non-blank, a prefix of the original line, and holds no line-comment marker |
| CommentStripper.CleanLines | code_analyzer.py:84-104 | no more lines are kept than are given |
| CommentStripper.KeptLinesShape | code_analyzer.py:84-104 | no kept line is blank, and none holds a newline when no input line does |
| CommentStripper.CleanLinesStep | code_analyzer.py:96-104 | step helper: each further line appends its cleaned form when kept and nothing otherwise |
| CommentStripper.Cleaned | code_analyzer.py:81-104 | the kept lines of a text are non-blank and newline-free |
| CommentStripper.EmptyTextKeepsNothing | code_analyzer.py:71-106 | an empty text keeps no line, whatever the rules |
| CommentStripper.RemoveComments | code_analyzer.py:71-106 | the result is the newline-join of the kept lines of the block-stripped text, under well-formed looked-up rules |
| CommentStripper.StripLineComments | code_analyzer.py:84-104 | the loop over the lines appends exactly the kept lines, in order |
| CommentStripper.StripLine | code_analyzer.py:85-104 | one loop iteration drops blank and whole-line-comment lines and keeps the non-blank remainder of the others |
| CommentStripper.StripBlockComments | code_analyzer.py:76-78 | the loop over the rules applies every block rule, in list order, to the whole text |
| CommentStripper.IsCommentLine | code_analyzer.py:90-94 | the flag is set exactly when some line rule's marker starts the stripped line |
| CommentStripper.CutInlineComments | code_analyzer.py:97-100 | the loop cuts the line at every line rule's marker, in list order |
| CommentStripper.NoRulesKeepsNonBlankLines | code_analyzer.py:84-104 | with no rules, the kept lines are exactly the non-blank lines, unchanged and in order |
| CommentStripper.NoRulesCleaned | code_analyzer.py:76-104 | for an extension without rules, the cleaned text is the input's non-blank lines |
| CommentStripper.CommentLineDropped | code_analyzer.py:90-94 | a line whose stripped form starts with a line-comment marker is dropped |
| CommentStripper.SingleMarkerCut | code_analyzer.py:97-100 | with the table's single line rule, a line loses everything from the first marker occurrence on |
| CommentStripper.NoLineRuleNoCut | code_analyzer.py:97-100 | block rules alone leave a line uncut |
| CommentStripper.MarkerFreeNoCut | code_analyzer.py:97-100 | a line with no marker passes the inline cut unchanged |
| CommentStripper.MarkerFreeLineKept | code_analyzer.py:84-104 | a non-blank line with no marker is kept exactly as it is |
| CommentStripper.KeptIndicesCount | code_analyzer.py:84-104 | there are as many kept indices as kept lines |
| CommentStripper.KeptIndicesIncrease | code_analyzer.py:84-104 | kept indices are valid and strictly increasing |
| CommentStripper.KeptLinesInOrder | code_analyzer.py:81-106 | the k-th kept line is the cleaned form of an input line at an index increasing with k |
| CommentStripper.DroppedLines | code_analyzer.py:84-104 | every line whose index is not kept was dropped |
| CommentStripper.KeptIndicesStep | code_analyzer.py:103-104 | step helper: one more line adds its index exactly when it is kept |
| CommentStripper.LineCount | code_analyzer.py:123 | splitting the join of newline-free kept lines gives one piece per line, or 1 when none is kept |
| FileAnalysis.IsBinaryFile | code_analyzer.py:54-61 | a file is binary exactly when its read fails or a NUL byte is among its first 1024 bytes |
| FileAnalysis.BinaryProbeSeesHeadOnly | code_analyzer.py:58-59 | bytes after the first 1024 never change the verdict |
| FileAnalysis.RFind | code_analyzer.py:117 | the index of the last occurrence of a character, or -1 when it does not occur |
| FileAnalysis.SplitExt | code_analyzer.py:117 | `splitext` splits the path in two; the extension is non-empty exactly when the last component has a dot preceded by a non-dot, and then it is one dot and no further dot or separator |
| FileAnalysis.SplitExtLastDot | code_analyzer.py:117 | `a.tar.gz` has the extension `.gz` |
| FileAnalysis.SplitExtLeadingDot | code_analyzer.py:117 | `.bashrc` has no extension |
| FileAnalysis.SplitExtKeepsCase | code_analyzer.py:117 | `Main.PY` has the extension `.PY` before lower-casing |
| FileAnalysis.FileExtension | code_analyzer.py:117 | the lower-cased extension is non-empty exactly when the name has one, then starts with a dot, and holds no upper-case letter |
| FileAnalysis.Analysis | code_analyzer.py:108-131 | a file that is not skipped counts at least one line and returns the text read |
| FileAnalysis.AnalyzeFile | code_analyzer.py:108-131 | the method returns the analysis of the file: zeros and empty text when skipped, else the line count of the cleaned text, the tokens and the text |
| FileAnalysis.MeasuredFile | code_analyzer.py:120-128 | for a file not skipped, loc is max(1, kept lines), tokens come from the raw text, and the content is the text read |
| FileAnalysis.NoLinesIffSkipped | code_analyzer.py:108-131 | loc is 0 exactly when the file is binary, unreadable or untokenizable, and then the result is `(0, 0, "")` |
| FileAnalysis.NoCodeCountsOneLine | code_analyzer.py:123 | a readable file with no kept line still counts one line |
| FileAnalysis.EmptyFileCountsOneLine | code_analyzer.py:114-123 | an empty readable file counts one line |
| FileAnalysis.TokensIgnoreCommentRules | code_analyzer.py:126 | files with the same text get the same token count, whatever their comment rules |
| ProjectAnalysis.KeepDir | code_analyzer.py:166 | an excluded name and a name starting with a dot are never kept |
| ProjectAnalysis.PruneDirs | code_analyzer.py:166 | a name survives pruning exactly when it is listed, not excluded and not starting with a dot |
| ProjectAnalysis.PruneDirsAppend | code_analyzer.py:166 | pruning works name by name, distributing over concatenation |
| ProjectAnalysis.PruneDirsIdempotent | code_analyzer.py:166 | pruning a pruned listing changes nothing |
| ProjectAnalysis.DirNames | code_analyzer.py:164 | the names of the sub-directories, one per sub-directory, in order |
| ProjectAnalysis.Walk | code_analyzer.py:164-166 | the walk visits the top directory first |
| ProjectAnalysis.WalkVisitsOnlyKept | code_analyzer.py:164-166 | below the top, every visited directory has a name pruning keeps, at any depth |
| ProjectAnalysis.ChildrenVisitOnlyKept | code_analyzer.py:164-166 | every directory visited under the kept sub-directories has a kept name |
| ProjectAnalysis.WalkEntersKeptChild | code_analyzer.py:164-166 | every sub-directory surviving pruning is walked in full |
| ProjectAnalysis.WalkOnlyThroughKept | code_analyzer.py:164-166 | every directory the walk visits is the top one or lies in the walk of a sub-directory surviving pruning, so no part of a pruned sub-tree is visited |
| ProjectAnalysis.ChildrenOnlyThroughKept | code_analyzer.py:164-166 | every directory visited under the first sub-directories lies in the walk of one of them that survives pruning |
| ProjectAnalysis.NestedUnderPrunedNotVisited | code_analyzer.py:164-166 | with the default exclusions, `node_modules/src` is not visited though a sibling `src` is |
| ProjectAnalysis.FilesOfStep | code_analyzer.py:168 | step helper: visiting one more directory appends its files |
| ProjectAnalysis.FileMeasure | code_analyzer.py:168-174 | a file contributes only with a listed, lower-case extension and a positive line count |
| ProjectAnalysis.Counted | code_analyzer.py:168-174 | no more measurements than files |
| ProjectAnalysis.CountedListed | code_analyzer.py:168-174 | every counted measurement has a listed lower-case extension and at least one line |
| ProjectAnalysis.AppendAdmitted | code_analyzer.py:174-175 | appending an admitted measurement, or nothing, keeps every measurement admitted |
| ProjectAnalysis.CountedAppend | code_analyzer.py:164-174 | counting distributes over the concatenation of file lists |
| ProjectAnalysis.CountedStep | code_analyzer.py:168-174 | step helper: one more file appends its measurement when counted and nothing otherwise |
| ProjectAnalysis.CountedOne | code_analyzer.py:168-174 | a file is counted exactly when its extension is listed and it is not skipped, with its analysed lines and tokens |
| ProjectAnalysis.SkippedFileChangesNothing | code_analyzer.py:174 | a binary, unreadable or untokenizable file changes no total and no entry |
| ProjectAnalysis.UpperCaseExtensionNeverCounted | code_analyzer.py:169-170 | an extension with an upper-case letter never matches a file |
| ProjectAnalysis.TotalFor | code_analyzer.py:179-181 | the per-extension sum is zero for an extension never measured |
| ProjectAnalysis.FirstSeen | code_analyzer.py:161 | the keys of the per-extension map: exactly the extensions measured, without repeats |
| ProjectAnalysis.AddMeasure | code_analyzer.py:175-181 | after one update the measurement's extension has an entry counting at least one file |
| ProjectAnalysis.AddMeasureFrame | code_analyzer.py:175-181 | one update adds only the measurement's extension to the keys, changes no other entry, and keeps the key order, growing it by at most one key at the end |
| ProjectAnalysis.ReportOf | code_analyzer.py:168-181 | the specification of the aggregation loop: the empty report updated by each measurement in turn; `ReportSummarizes` proves what it holds |
| ProjectAnalysis.ReportOfStep | code_analyzer.py:175-181 | step helper: the report of one more measurement is the report updated by it |
| ProjectAnalysis.SummarizesAppend | code_analyzer.py:175-181 | one loop update keeps the totals and each entry equal to the sums over the measurements so far, creating an entry on first use |
| ProjectAnalysis.ReportSummarizes | code_analyzer.py:158-181 | the built report's totals are the sums over the measurements, with one entry per extension seen holding that extension's sums |
| ProjectAnalysis.EntriesAreNonEmpty | code_analyzer.py:174-181 | every entry counts at least one file and at least as many lines as files |
| ProjectAnalysis.EntryBounds | code_analyzer.py:174-181 | an extension that was measured has at least one file and at least as many lines as files |
| ProjectAnalysis.FilesBoundLoc | code_analyzer.py:174-180 | an extension's file count never exceeds its line count |
| ProjectAnalysis.FileTotalIsCount | code_analyzer.py:175 | the file total is the number of counted files |
| ProjectAnalysis.TotalsAreSumsOfEntries | code_analyzer.py:175-187 | each overall total equals the sum of that statistic over the per-extension entries |
| ProjectAnalysis.SumOverEntries | code_analyzer.py:179-181 | summing the entries of distinct keys sums the measurements of those extensions |
| ProjectAnalysis.TotalInNone | code_analyzer.py:179-181 | no measurement counts towards an empty list of extensions |
| ProjectAnalysis.TotalInExtend | code_analyzer.py:179-181 | adding a new key adds that extension's sum |
| ProjectAnalysis.TotalInAll | code_analyzer.py:175-181 | summing over keys covering every measurement gives the overall total |
| ProjectAnalysis.AddDirectoryFiles | code_analyzer.py:168-181 | the loop over one directory's files extends the report to the counted measurements of those files |
| ProjectAnalysis.AnalyzeProject | code_analyzer.py:142-188 | the result is the report of the counted files of the pruned walk, under default extensions and exclusions when none are given |
| Cli.Normalize | code_analyzer.py:252 | an extension gains a leading dot only when it lacks one |
| Cli.NormalizeExtensions | code_analyzer.py:250-254 | given extensions are normalised one by one in order; none or an empty list means the default list |
| Cli.NormalizedAreDotted | code_analyzer.py:250-254 | every extension the analysis receives starts with a dot |
| Cli.NormalizeIdempotent | code_analyzer.py:252 | normalising twice changes nothing |
| Cli.DotOptional | code_analyzer.py:252 | an extension given with or without its dot names the same extension |
| Cli.DigitChar | code_analyzer.py:192 | a digit value renders as a digit character |
| Cli.DigitValue | code_analyzer.py:192 | a digit character reads as a value below ten |
| Cli.Decimal | code_analyzer.py:192 | the decimal digits are non-empty, all digits, and without a leading zero |
| Cli.DecimalValue | code_analyzer.py:192 | the digits read back as the number |
| Cli.UngroupedAppend | code_analyzer.py:192 | comma removal distributes over concatenation |
| Cli.UngroupedNoComma | code_analyzer.py:192 | comma removal leaves comma-free text alone |
| Cli.GroupUngroups | code_analyzer.py:192 | grouping only inserts commas |
| Cli.NoCommaInParts | code_analyzer.py:192 | the parts of comma-free digits are comma-free |
| Cli.UngroupedAroundComma | code_analyzer.py:192 | removing one inserted comma joins its neighbours |
| Cli.GroupShape | code_analyzer.py:190-192 | between the commas the first group has one to three digits and every later one exactly three |
| Cli.GroupStartsWithDigit | code_analyzer.py:192 | grouped text starts with the first digit |
| Cli.FormatNumber | code_analyzer.py:190-192 | the text is never empty and starts with a minus sign exactly when the number is negative |
| Cli.FormatNumberRoundTrip | code_analyzer.py:190-192 | the formatted text reads back as the number, negative numbers included |
| Cli.GroupedDigitsRoundTrip | code_analyzer.py:192 | the grouped digits of a natural number, commas removed, are digits that read back as the number |
| Cli.NegativeRoundTrip | code_analyzer.py:192 | a negative number's text is a minus sign and grouped digits that read back as the number |
| Cli.NonNegativeRoundTrip | code_analyzer.py:192 | a non-negative number's text starts with a digit and reads back as the number |
| Cli.MinusSignRead | code_analyzer.py:192 | a minus sign before grouped digits reads as the negated value |
| Cli.FormatBelowThousand | code_analyzer.py:192 | 0 and 999 have no separator |
| Cli.FormatNegativeThousand | code_analyzer.py:192 | -1000 is rendered `-1,000` |
| Cli.FormatMillions | code_analyzer.py:192 | 1234567 is rendered `1,234,567` |
| Cli.DigitsOfMillions | code_analyzer.py:192 | the digits of 1234567 |
| Cli.GroupsOfMillions | code_analyzer.py:192 | the grouping of the digits of 1234567 |

## Left out

- File I/O is not modelled. Each file is given as its name, the bytes a binary read returns and the text a UTF-8 text-mode read with `errors='ignore'` returns. A read that raises is `None`. Decoding and universal-newline translation are not modelled.
- `os.walk` is not modelled as I/O. The tree is given as a `Tree` value, and the walk is its top-down pre-order with each listing pruned before descent. Paths are not built, since only file names matter.
- `find_git_root` probes the file system, so it is left out. The tree given is the one already resolved to the git root.
- The tokenizer library is not modelled. `count_tokens` is a parameter of type `string -> Option<nat>`, and `None` stands for an encoding that raises.
- `print_results` is left out, because it is floating-point percentages and report printing. The `format_number` it uses is modelled.
- `argparse` and the rest of `main` are left out (path validation, exit codes, printing). Only the extension normalisation is modelled.
- The error message `analyze_file` prints on an exception is left out, because it is output.
- The general regex engine is left out. The anchored group match, the lazy `DOTALL` block substitution and the greedy `marker.*` line substitution are modelled for the fixed delimiters the table uses. A pattern is told apart by its rule kind, and `CommentRules.TableBlockIffLazy` proves this agrees with the `'.*?' in pattern` test.
- `remove_comments`' loops are split into helper methods, one per loop. The per-file loop of `analyze_project` is its own method. Both are proved against the specification functions.
- Python's `dict` and `defaultdict` are modelled as a `map` plus the key order kept in `extOrder`. The per-extension entry is updated by the `AddMeasure` function on the whole `Report` value, not by mutation in place.
- `analyze_file` applies `splitext` to the joined path, while `analyze_project` applies it to the bare file name. Both look only at the last component, so the model uses the file name for both.
- Text.Lower: lower-cases ASCII letters only, because Unicode case mapping is not modelled. Extensions outside ASCII are compared as written.
- Whitespace for `strip` is the fixed set of characters `str.isspace` accepts. No Unicode database is consulted.
- Integers are unbounded, as in Python.
