# AffilExt author/affiliation extraction, modelled in Dafny

AffilExt turns the author blocks of LaTeX papers into (author, affiliations)
records, ranks competing extractions against the paper's declared author list,
and resolves affiliation strings against the Research Organization Registry
(ROR). This project models the deterministic core of that pipeline and proves
what its parts promise:

- the pattern primitives: the balanced `{…}` group matcher, separator
  splitting, the trie-to-alternation compiler, and the shapes of the other
  patterns (`AUTHORSHIP`, `AUTHORSHIP_ENV`, the comment block, ORCID ids and
  measurements);
- LaTeX normalisation: the comment scanner, the diacritic table,
  `\footnotemark` resolution and the newline and spacing rewrites;
- the command extraction filters, the reference utilities (`cmd_util.py`)
  and `sanitize`;
- the catalogue of single-command extraction schemes: each `validate`
  predicate, the exclusions and implications between them, and each
  `extract` grouping state machine;
- scoring and matching: the count-ratio score, the weighted mean, the
  cardinality-aware name pairing, best-extraction selection and the top-10
  affiliation rerank;
- the data helpers: `Author.__eq__`, the ROR id helpers, ROR dataset
  minimisation, the arXiv/Kaggle metadata string helpers of `download.py`,
  the statistics counters of `export_stats.py`, and the brace depth of
  `difficulty.py`.

One Dafny module per source file: `Trie.py` is `TrieRegex` (trie.dfy),
`reg_exp.py` is `RegExp` (reg_exp.dfy), `latex.py` is `Latex`, each
`single_cmd_scheme/*.py` has its own module, and so on. Three shared modules
carry no source of their own: `PyStr` (Python `str` operations: `find`,
`strip`, `split`, `replace`, `lower` on ASCII), `Regex` (the left-to-right
`finditer`/`search`/`sub`/`split` scanner over a pattern given as a "match at
position i" function) and `Scheme` (generic map, filter, flat-map and fold
functions with the lemmas the loop proofs share).

Loops of the source are methods with loop invariants, proved equal to a
recursive specification function; the properties are then lemmas about that
function. The statistics containers whose fields the source updates in place
(`ExtStats`, `CmdStats`, `FileStats`, the `Trie`) are classes. Fuzzy
similarity (rapidfuzz), Unicode normalisation, `uuid1`, `get_cmd_content` and
the regular expressions that need the `regex` package's recursion,
lookbehind, REVERSE or overlapped modes (other than the balanced-brace
matcher) are function parameters: the model proves its properties for every
such function, and states the few shape facts it relies on as preconditions.

The model follows the code as written, including these behaviours:

- `_filter_by_cutoff` filters affiliations with the name cutoff (70), not the
  affiliation cutoff (50) (`ExportStats.AffiliationCutoffIsNameCutoff`).
- `_get_arxiv_id` on a URL without `v` returns version `v1` and an id that
  has lost its last character (`Download.ArxivIdNoV`).
- `NESTED_CONTENT_IN_BRACKETS` is compiled from the curly-brace string, so it
  matches `{…}` groups and never `[…]` (`RegExp.BracketsCompiledIsCurly`).
- `AffAddrMathMode` discards the result of the merge it computes.
- `_split_to_math_parts` drops the `\\` separator when it glues parts.
- Footnote-mark splicing uses the offsets of the original text on the
  already edited one (`Latex.FnmarkOffsetsDrift`).
- `_ext_multi_aff` builds every name from the whole affiliation content.
- `Author.__eq__` is not symmetric when affiliations repeat.
- `remove_comments` cuts each line with `_find_comment_index` as written, so a
  last line `\%a\` without a line break comes out as `\` and a line break
  (`Latex.CleanLineWrapsAround`).
- An extractor or validator that raises is not caught: the paper is left
  without an extraction file (`ExtractAuthorAff.RunSingleElementRaises`).

## Model

| member | source | states |
|---|---|---|
| `TrieRegex.Trie.constructor` | src/definition/data/Trie.py:14-15 | a new trie stores no word |
| `TrieRegex.Trie.Add` | src/definition/data/Trie.py:17-22 | `add` walks down along the word, creating missing levels, and marks the word's end; the new data is the old trie with the word inserted |
| `TrieRegex.InsertHas` | src/definition/data/Trie.py:17-22 | after `add(w)` the stored words are exactly the earlier ones and `w`: nothing is lost or altered |
| `TrieRegex.InsertIdempotent` | src/definition/data/Trie.py:17-22 | adding a word that is already stored leaves the data unchanged |
| `TrieRegex.InsertCommutes` | src/definition/data/Trie.py:17-22 | the order in which two words are added does not matter |
| `TrieRegex.BuildHas` | src/definition/data/Trie.py:17-22 | a trie built by adding a list of words stores exactly those words |
| `TrieRegex.Trie.Pattern` | src/definition/data/Trie.py:64-65 | `pattern()` is None exactly when the root holds only the end marker |
| `TrieRegex.Quote` | src/definition/data/Trie.py:6-7 | `re.escape` of a character is one or two characters ending in that character |
| `TrieRegex.SortedChars` | src/definition/data/Trie.py:35 | the keys are visited in strictly increasing order, each key once |
| `TrieRegex.Alts` | src/definition/data/Trie.py:35-41 | the alternatives are at most one per key, from the children whose pattern exists |
| `TrieRegex.PatternOf` | src/definition/data/Trie.py:27-62 | `_pattern` is None exactly for a level whose only key is the end marker |
| `TrieRegex.LeafHas` | src/definition/data/Trie.py:29-30 | a child whose pattern is None stores only the empty word |
| `TrieRegex.LeavesAccept` | src/definition/data/Trie.py:40-41 | a key goes into the character class exactly when its child's pattern is None |
| `TrieRegex.AltsLeavesCount` | src/definition/data/Trie.py:35-44 | every key yields either an alternative or a class character, and every alternative is the quoted key followed by the child's pattern |
| `TrieRegex.OneOf` | src/definition/data/Trie.py:52-55 | a single alternative is used bare and several are grouped; either way the result accepts a word iff one alternative does |
| `TrieRegex.AppendClass` | src/definition/data/Trie.py:46-50 | the character class appended after the alternatives accepts exactly the one-character words of its keys; no alternative accepts the empty word |
| `TrieRegex.PatternLanguage` | src/definition/data/Trie.py:27-62 | the language of the rendered pattern is exactly the set of words stored in the trie, the optional `?` covering a word that ends at that level |
| `RegExp.GroupAt` | src/definition/reg_exp.py:277-284 | the balanced-group matcher, as a depth-counting scan, ends at least two characters after the opening brace and within the text |
| `RegExp.CloseFromSpec` | src/definition/reg_exp.py:277-284 | the scan stops exactly at the first character where the nesting depth returns to zero, and reports no group when the depth never does |
| `RegExp.GroupAtSpec` | src/definition/reg_exp.py:277-284 | the scanner finds exactly the balanced groups of the recursive pattern: what it returns is balanced, and any balanced group opening at `i` ends where it says |
| `RegExp.NestedExample` | src/definition/reg_exp.py:277-284 | `{a{b}c}` is one group of seven characters (the inner `}` does not end it), and `{a{b}` has none |
| `RegExp.BracketsCompiledIsCurly` | src/definition/reg_exp.py:303-310 | `NESTED_CONTENT_IN_BRACKETS` is compiled from the curly string, so it matches exactly the curly groups and never a `[` |
| `RegExp.CmdGroupAt` | src/definition/reg_exp.py:633-637 | a `\name{…}` content pattern matches a backslash, one of the names compared case-insensitively, and a balanced `{…}` group captured as the content |
| `RegExp.ThanksNotThanksref` | src/definition/reg_exp.py:765-775 | `\thanks{…}` never matches the longer `\thanksref{…}` |
| `RegExp.MathModeAt` | src/definition/reg_exp.py:724-729 | `MATH_MODE_CONTENT` captures a non-empty, `$`-free content between two `$` |
| `RegExp.CollapseSpaces` | src/definition/reg_exp.py:628-630 | substituting `SPACE_MULTI` by one space never lengthens the text |
| `RegExp.CollapseFirst` | src/definition/reg_exp.py:628-630 | the collapsed text is empty iff the input is, and starts with whitespace iff the input does |
| `RegExp.CollapseSpacesSingle` | src/definition/reg_exp.py:628-630 | the collapsed text holds no whitespace run and no whitespace other than single spaces |
| `RegExp.StripSingleSpaced` | src/definition/reg_exp.py:628-630 | stripping a collapsed text leaves it single-spaced and trimmed |
| `RegExp.CollapsePrefixUntouched` | src/definition/reg_exp.py:628-630 | a whitespace-free prefix of the output is copied unchanged from the input |
| `RegExp.CollapseKeepsAbsent` | src/definition/reg_exp.py:628-630 | collapsing whitespace cannot create a whitespace-free substring the input lacks |
| `RegExp.SepCmdAt` | src/definition/reg_exp.py:452-455 | a separator command is a backslash and `and`, `quad`, `qquad` or `cdot` with the whitespace after it |
| `RegExp.SeparatorAt` | src/definition/reg_exp.py:457-466 | `LATEX_SEPARATORS` tries the separator command, a comma, and `and` between two whitespace characters, in that order |
| `RegExp.SeparatorForms` | src/definition/reg_exp.py:457-466 | every separator match is one of the three forms and nothing else |
| `RegExp.SplitOnSeparator` | src/definition/reg_exp.py:250-252 | `split_on_separator` returns only non-empty, whitespace-trimmed parts |
| `RegExp.OrcidExamples` | src/definition/reg_exp.py:569-578 | an ORCID id is four groups of four digits joined by hyphens, the last character possibly `X`; a three-digit last group is not one |
| `RegExp.MeasurementExamples` | src/definition/reg_exp.py:483-489 | `[12pt]` and `[-.5EM]` are measurements, `[pt]` and `[1.pt]` are not |
| `RegExp.MeasurementAt` | src/definition/reg_exp.py:483-489 | a `LATEX_MEASUREMENTS` match is a bracketed measurement ending at the first `]` |
| `RegExp.AfterDefinitionSpec` | src/definition/reg_exp.py:313 | the negative lookbehind holds exactly when only whitespace separates the position from `\newcommand`, `\renewcommand` or `\def` |
| `RegExp.SkipBracketGroups` | src/definition/reg_exp.py:318 | the repeated bracket groups stop where no further group opens |
| `RegExp.SkipBracketGroupsRun` | src/definition/reg_exp.py:318 | what the repeated bracket groups skip is a run of consecutive balanced groups |
| `RegExp.OptGroup` | src/definition/reg_exp.py:321-322 | an optional brace group is taken when one opens, else nothing is consumed |
| `RegExp.AuthorshipName` | src/definition/reg_exp.py:315-316 | the command name is one of the known author and affiliation commands, compared case-insensitively, after which the rest of the pattern fits |
| `RegExp.AuthorshipTailShape` | src/definition/reg_exp.py:316-322 | after the name: an optional `*`, whitespace, bracket groups, whitespace, one brace group and up to two more |
| `RegExp.AuthorshipIn` | src/definition/reg_exp.py:312-324 | an `AUTHORSHIP` match starts with a backslash outside a command definition and stays inside the text |
| `RegExp.AuthorshipShape` | src/definition/reg_exp.py:312-324 | a match is one of the recognised command names, case-insensitively, followed by the optional star, bracket groups and one to three brace groups, and ends after the last of them |
| `RegExp.AuthorshipSkipsDefinitions` | src/definition/reg_exp.py:313 | a command inside `\newcommand`, `\renewcommand` or `\def` is never an `AUTHORSHIP` match |
| `RegExp.AuthorshipTailExample` | src/definition/reg_exp.py:320-322 | of `\author{A}{B}{C}{D}` only three brace groups belong to the match |
| `RegExp.LazyUntil` | src/definition/reg_exp.py:330-331 | the lazy `.*?` ends at the leftmost closing marker, and without DOTALL never past the end of the opening line |
| `RegExp.AuthorshipEnvAt` | src/definition/reg_exp.py:326-334 | an `AUTHORSHIP_ENV` match runs from an opening marker outside a definition to the first closing marker on the same line |
| `RegExp.CommentBlockAt` | src/definition/reg_exp.py:560-565 | a `LATEX_COMMENT_BLOCK` match runs from `\begin{comment}` to the first `\end{comment}` on the same line |
| `RegExp.CommentBlockSameLine` | src/definition/reg_exp.py:560-565 | a comment block whose opening line has no closing marker is never matched, whatever follows |
| `RegExp.SkipOptions` | src/definition/reg_exp.py:554 | each option group is `[`, at least one non-`]` character and `]`, with the whitespace after it |
| `RegExp.DocumentclassAt` | src/definition/reg_exp.py:551-558 | `LATEX_DOCUMENTCLASS` captures the balanced brace group after `\documentclass` and its options |
| `RegExp.DocumentclassIsGroup` | src/definition/reg_exp.py:551-558 | the captured class name is a balanced curly group |
| `Latex.CommentIndexFrom` | src/definition/latex.py:178-189 | the first comment sign at or after a position: a `%` not preceded by exactly one backslash, with no such sign before it, or -1 |
| `Latex.FindCommentIndex` | src/definition/latex.py:178-189 | the `find` loop returns -1 or the first `%` that is not escaped; `\%` is skipped and `\\%` counts |
| `Latex.CommentIndexAsWritten` | src/definition/latex.py:178-189 | the loop as written, whose escape test reads `line[-1]` when the sign is at index 1, returns -1 or a sign that passes the wrapping test |
| `Latex.FindCommentIndexAsWritten` | src/definition/latex.py:178-189 | the `find` loop with the wrapping `line[ci - 1]` and `line[ci - 2]` reads computes the source's index |
| `Latex.CommentIndexWrapsAround` | src/definition/latex.py:181-183 | on `\%a\` the source reports the escaped sign at 1, because `line[-1]` wraps to the trailing backslash; the intended index is -1 |
| `Latex.WrapNeedsTrailingBackslash` | src/definition/latex.py:181-183 | only a line ending in a backslash is read differently by the wrapping test |
| `Latex.AsWrittenAgrees` | src/definition/latex.py:178-189 | on every line that ends in a line break the source finds the intended index |
| `Latex.CommentAtPrefix` | src/definition/latex.py:181-186 | whether a `%` starts a comment depends only on the text before it |
| `Latex.CleanLineHasNoComment` | src/definition/latex.py:192-200 | no line `remove_comments` keeps carries a comment any more, although it cuts with the wrapping test |
| `Latex.CleanLineWrapsAround` | src/definition/latex.py:181-198 | the last line `\%a\` is cut at its escaped sign and comes out as `\` and a line break |
| `Latex.CleanedIdentity` | src/definition/latex.py:192-200 | a text none of whose lines needs cleaning is kept whole |
| `Latex.CleanOneLine` | src/definition/latex.py:194-199 | a blank or commented-out line is dropped; otherwise the line is cut where `_find_comment_index` as written reports a sign, right-stripped and given a line break, or kept whole |
| `Latex.CleanLines` | src/definition/latex.py:193-199 | the loop over the lines concatenates the cleaned lines in order |
| `Latex.RemoveComments` | src/definition/latex.py:192-202 | `remove_comments` cleans the lines, then deletes the comment blocks |
| `Latex.NoCommentsKept` | src/definition/latex.py:192-200 | a text without blank lines, leading `%` or signs the source's scan reports comes through the line pass unchanged |
| `Latex.DiacriticToUnicode` | src/definition/latex.py:78-160 | a resolved diacritic is never empty |
| `Latex.AccentAppendsOneMark` | src/definition/latex.py:82-86 | an accent yields something iff it is one of the 21 known accents, and then the (dotless for `\i`/`\j`) base followed by exactly one combining mark from U+0300 to U+0361 |
| `Latex.UnaccentedLetters` | src/definition/latex.py:88-131 | without a base only `l`, `L`, `o`, `O` give ł, Ł, ø, Ø; without an accent only the 24 special letter names give something |
| `Latex.DiacriticExamples` | src/definition/latex.py:78-160 | `\'{\i}` is a dotless i with an acute accent, `{\o}` is ø and `\v{s}` is s with a caron |
| `Latex.SubCscResult` | src/definition/latex.py:163-171 | a match the table resolves becomes the table's text; any other match is kept as it was |
| `Latex.SubCscKeepsAbsent` | src/definition/latex.py:163-171 | a character of neither the match nor any table entry never comes out of `_sub_csc` |
| `Latex.EscapedCharAt` | src/definition/reg_exp.py:491-494 | an escaped character match is two characters, the backslash and the captured character |
| `Latex.SpacingAt` | src/definition/reg_exp.py:475-478 | a spacing command match is a backslash and one of ` ,!>:;`, two characters |
| `Latex.RemoveTexSpacing` | src/definition/latex.py:217-221 | the output of `_remove_tex_spacing` holds no `~` |
| `Latex.RemoveMultiSpace` | src/definition/latex.py:205-206 | the output of `_remove_multi_space` is single-spaced and trimmed |
| `Latex.MultiSpaceKeepsAbsent` | src/definition/latex.py:205-206 | `_remove_multi_space` creates no whitespace-free substring its input lacks |
| `Latex.RemoveLatexNewlinesClean` | src/definition/latex.py:209-214 | the output of `remove_latex_newlines` holds no `\newline`, no `\\`, no whitespace run and no whitespace at either end |
| `Latex.NewlinesReplaced` | src/definition/latex.py:212-213 | after the two replacements neither line-break command is left |
| `Latex.NamedTexts` | src/definition/latex.py:33-40 | `_get_other_commands` keeps, in order, the texts of the command matches whose name is a footnote, institute or thanks command |
| `Latex.ClosestPreviousFootnoteShape` | src/definition/latex.py:25-30 | the closest previous footnote is empty exactly when the text has none, and a `\footnote` command otherwise |
| `Latex.ReplaceFnmarksWithReference` | src/definition/latex.py:51-72 | without `\footnotemark` or without another command the text is returned unchanged; otherwise each mark of the original text is spliced in turn |
| `Latex.SpliceMarksLoop` | src/definition/latex.py:59-70 | the loop over the marks leaves the text that splicing each mark in turn makes of it |
| `Latex.ResolveMark` | src/definition/latex.py:60-70 | one mark is replaced by the closest footnote before it, by the command its number names (or nothing when out of range), or left in place when unhandled |
| `Latex.MarkResolution` | src/definition/latex.py:62-70 | a number `n` becomes the n-th command or disappears when out of range; an empty mark or `\value{footnote}` becomes the closest previous footnote; any other mark is skipped |
| `Latex.SpliceInside` | src/definition/latex.py:70 | a splice replaces the mark's span by the reference |
| `Latex.DigitMark` | src/definition/latex.py:66-67 | a mark holding one digit is read as that number |
| `Latex.TwoNumberedMarks` | src/definition/latex.py:59-70 | with two marks the second is spliced, at its original offsets, into the text the first left |
| `Latex.FnmarkOffsetsDrift` | src/definition/latex.py:59-70 | the offsets are not moved by earlier splices: on `ab` with references `xyz` and `w` the second splice lands inside the first reference |
| `Latex.ResolveKeepsAbsent` | src/definition/latex.py:62-70 | one splice brings in only characters of the text and of the commands |
| `Latex.SpliceMarksKeepsAbsent` | src/definition/latex.py:59-70 | the splicing loop brings in only characters of the text and of the commands |
| `Latex.SanitizeLatexCmd` | src/definition/latex.py:301-320 | `sanitize_latex_cmd` applies its steps in the source's order and returns a single-spaced, trimmed text |
| `Latex.CompositeKeepsNoTilde` | src/definition/latex.py:174-175 | accent resolution brings in no `~` |
| `Latex.EscapedKeepsNoTilde` | src/definition/latex.py:75-76 | unescaping brings in no `~` |
| `Latex.FnmarksKeepNoTilde` | src/definition/latex.py:51-72 | footnote-mark resolution brings in no `~` |
| `Latex.SanitizeLeavesNoTilde` | src/definition/latex.py:301-320 | `sanitize_latex_cmd` leaves no `~`: spacing removal turns every one into a space and no later step brings one back |
| `ExtractCmds.EmptyCommandIff` | src/extract_cmds.py:15-22 | a command is empty iff it has no `{`, or the text between its first `{` and last `}` holds only braces and spaces |
| `ExtractCmds.IsEnclosedCmd` | src/extract_cmds.py:25-38 | the reversed walk with its early stop is false for no spans, and equals the recursive scan |
| `ExtractCmds.EnclosedScanSound` | src/extract_cmds.py:30-36 | the scan says yes only when some recorded span strictly contains `[start, end]` |
| `ExtractCmds.EnclosedScanComplete` | src/extract_cmds.py:30-36 | on spans recorded in order the early stop loses nothing: the scan says yes iff some span strictly contains `[start, end]` |
| `ExtractCmds.UnorderedScanMisses` | src/extract_cmds.py:30-33 | on spans out of order the early stop misses an enclosing span |
| `ExtractCmds.ExtractAuthorshipFromTex` | src/extract_cmds.py:41-59 | the loop over the matches keeps, in order, each one that no environment and no kept span encloses and whose argument is not empty |
| `ExtractCmds.ExtractedPrefix` | src/extract_cmds.py:41-59 | the walk only appends: the spans kept so far stay in front |
| `ExtractCmds.ExtractedAdds` | src/extract_cmds.py:46-57 | every appended span was accepted against the spans kept before it |
| `ExtractCmds.ExtractedFrom` | src/extract_cmds.py:43-57 | every appended span covers one of the matches |
| `ExtractCmds.ExtractedOrdered` | src/extract_cmds.py:43-57 | spans kept from ordered matches are ordered |
| `ExtractCmds.WalkShape` | src/extract_cmds.py:41-59 | a walk from no spans returns ordered spans taken from the matches, each accepted against those before it |
| `ExtractCmds.ExtractAuthorshipShape` | src/extract_cmds.py:41-59 | every returned span covers a match and holds the matched text, was accepted (non-empty argument, enclosed neither by an environment nor by an earlier span), and the spans are in match order |
| `ExtractCmds.TexCmds` | src/extract_cmds.py:62-65 | one command per kept span, in order, holding the span's text |
| `ExtractCmds.ExtractAuthorshipCmdsFromTex` | src/extract_cmds.py:62-65 | environments come first, then the bare commands outside them, each paired with its sanitized text |
| `ExtractCmds.CommandsOutsideEnvironments` | src/extract_cmds.py:63-64 | no bare command kept lies strictly inside one of the environments |
| `ExtractCmds.ExtractDocumentclass` | src/extract_cmds.py:68-73 | `""` without a `\documentclass`, otherwise a trimmed text |
| `ExtractCmds.DocumentclassGroupInText` | src/extract_cmds.py:69-73 | the captured group is a piece of the text, braces included |
| `ExtractCmds.StrippedInsideInText` | src/extract_cmds.py:73 | the stripped inside of the group is a piece of the text |
| `ExtractCmds.DocumentclassFromText` | src/extract_cmds.py:68-73 | the document class, when there is one, is a piece of the text |
| `ExtractCmds.ExtractFromFile` | src/extract_cmds.py:80-89 | a file that is exactly `%auto-ignore` is skipped; otherwise its comments are removed, a non-empty class is recorded and its commands are added |
| `ExtractCmds.ExtractAuthorshipCmdsFromFiles` | src/extract_cmds.py:76-91 | the loop over the files gathers the classes and commands of each file in order |
| `ExtractCmds.FileDataClass` | src/extract_cmds.py:84-87 | one file gives at most one document class, non-empty and stripped |
| `ExtractCmds.FoldDataClasses` | src/extract_cmds.py:76-91 | every collected class comes from one of the files, at most one per file |
| `ExtractCmds.FilesDataClasses` | src/extract_cmds.py:76-91 | every collected class is non-empty and stripped, and there are no more classes than files |
| `ExtractCmds.FoldDataAppend` | src/extract_cmds.py:79-89 | files are handled independently: the data of `a + b` is that of `a` followed by that of `b` |
| `ExtractCmds.FilesDataAppend` | src/extract_cmds.py:76-91 | the same for the whole per-file pipeline |
| `CmdUtil.IndicesFromSound` | src/definition/single_cmd_scheme/cmd_util.py:16-18 | every reported position is an occurrence at or after the start, and each next one begins at least one term length after the previous |
| `CmdUtil.AllIndices` | src/definition/single_cmd_scheme/cmd_util.py:8-19 | `find_all_indices` is `[]` when either argument is empty, otherwise the case-insensitive, non-overlapping occurrences left to right |
| `CmdUtil.FindAllIndices` | src/definition/single_cmd_scheme/cmd_util.py:8-19 | the method with its `pos` loop computes exactly those positions |
| `CmdUtil.SearchLoop` | src/definition/single_cmd_scheme/cmd_util.py:16-18 | the `while` loop over the lowered texts collects the successive `find` hits |
| `CmdUtil.IndicesCover` | src/definition/single_cmd_scheme/cmd_util.py:16-18 | nothing is missed: every occurrence at or after the start is a found position or overlaps one |
| `CmdUtil.Bounds` | src/definition/single_cmd_scheme/cmd_util.py:55-56 | the found positions followed by the text length are strictly increasing and within the text |
| `CmdUtil.SplitRefCommands` | src/definition/single_cmd_scheme/cmd_util.py:54-57 | one part per occurrence of the command |
| `CmdUtil.SplitRefCommandsParts` | src/definition/single_cmd_scheme/cmd_util.py:54-57 | each part is the stripped text from one occurrence to the next or the end, so it begins with the command (up to case); text before the first occurrence is dropped, and no occurrence gives `[]` |
| `CmdUtil.PartStartsWithCommand` | src/definition/single_cmd_scheme/cmd_util.py:54-57 | part `k` runs from occurrence `k` to at least one command length later and so begins with the command |
| `CmdUtil.PieceStartsWithCommand` | src/definition/single_cmd_scheme/cmd_util.py:57 | a piece starting at an occurrence still starts with the command once stripped |
| `CmdUtil.SplitPart` | src/definition/single_cmd_scheme/cmd_util.py:65-66 | one part cut at a command gives only non-empty, stripped pieces |
| `CmdUtil.SplitParts` | src/definition/single_cmd_scheme/cmd_util.py:64-66 | every part cut at one command gives only non-empty, stripped pieces, in order |
| `CmdUtil.SplitOnCommands` | src/definition/single_cmd_scheme/cmd_util.py:60-69 | the nested loops compute the parts cut at each command in turn |
| `CmdUtil.SplitAllParts` | src/definition/single_cmd_scheme/cmd_util.py:63-67 | the inner loop cuts every current part at one command |
| `CmdUtil.OnCommandsClean` | src/definition/single_cmd_scheme/cmd_util.py:60-69 | with no command the text comes back as it is; after at least one command only non-empty, stripped parts remain |
| `CmdUtil.SplitPartKeepsPrefix` | src/definition/single_cmd_scheme/cmd_util.py:65-66 | the text before the first occurrence is kept as its own part when it is not blank |
| `CmdUtil.RemoveEach` | src/definition/single_cmd_scheme/cmd_util.py:94-96 | deleting each command from the rest never lengthens it |
| `CmdUtil.MathTexts` | src/definition/single_cmd_scheme/cmd_util.py:84 | one text per math-mode span of the reference |
| `CmdUtil.FirstCommandOccurs` | src/definition/single_cmd_scheme/cmd_util.py:86-87 | when a reference holds a backslash, the first part cut at the backslashes is a non-empty slice of it |
| `CmdUtil.RestShorter` | src/definition/single_cmd_scheme/cmd_util.py:94-98 | the rest passed to the recursive call is shorter than the reference, so the recursion ends |
| `CmdUtil.StarsGone` | src/definition/single_cmd_scheme/cmd_util.py:103-104 | deleting the stars shortens the reference, so that recursion ends too |
| `CmdUtil.PiecesLackChar` | src/definition/single_cmd_scheme/cmd_util.py:77 | the non-empty stripped pieces of a split hold no separator character |
| `CmdUtil.CommaIds` | src/definition/single_cmd_scheme/cmd_util.py:76-77 | with a comma, the ids are the non-blank comma-separated pieces: none is empty or holds a comma |
| `CmdUtil.MathIds` | src/definition/single_cmd_scheme/cmd_util.py:79-84 | otherwise, with a `$`, each id is one `$…$` span of the reference, dollars included |
| `CmdUtil.BackslashIds` | src/definition/single_cmd_scheme/cmd_util.py:86-98 | otherwise, with a backslash, the ids end with the parts cut at each backslash, each starting with one |
| `CmdUtil.SpaceIds` | src/definition/single_cmd_scheme/cmd_util.py:100-101 | otherwise, with a space, the ids are the non-blank space-separated pieces |
| `CmdUtil.StarIds` | src/definition/single_cmd_scheme/cmd_util.py:103-104 | otherwise, with a `*`, the ids are `"*"` followed by the ids of the text without stars |
| `CmdUtil.PlainId` | src/definition/single_cmd_scheme/cmd_util.py:72-106 | a one-character reference, or one with none of `, $ \ space *`, is its own single id |
| `CmdUtil.EmptyIdInFront` | src/definition/single_cmd_scheme/cmd_util.py:86-98 | when the backslash parts do not cover the reference and only whitespace is left besides them, the first id is the empty text |
| `CmdUtil.SpecialCharsRemoved` | src/definition/single_cmd_scheme/cmd_util.py:109-117 | the seven deletions leave exactly the input without `$ { } [ ] ^ \`: only characters are deleted and none of those remains |
| `CmdUtil.Sanitize` | src/definition/single_cmd_scheme/cmd_util.py:141-149 | whatever the regular expressions do, `sanitize` returns a text without those special characters, single-spaced and trimmed |
| `CmdUtil.SanitizeTail` | src/definition/single_cmd_scheme/cmd_util.py:146-149 | the punctuation strip and the whitespace collapse bring no special character back |
| `CmdUtil.Joined` | src/definition/single_cmd_scheme/cmd_util.py:23-39 | one author per input author |
| `CmdUtil.JoinAuthorAndAffilById` | src/definition/single_cmd_scheme/cmd_util.py:23-39 | the outer loop builds, per author, the sanitized name with its attached affiliations |
| `CmdUtil.AttachAffiliations` | src/definition/single_cmd_scheme/cmd_util.py:26-35 | the inner loop appends the sanitized name of every affiliation that is non-empty and carries one of the author's ids |
| `CmdUtil.AttachedAppend` | src/definition/single_cmd_scheme/cmd_util.py:27-35 | attaching over two lists one after the other attaches over each in turn |
| `CmdUtil.AttachedIff` | src/definition/single_cmd_scheme/cmd_util.py:27-35 | a name is attached iff some affiliation sanitizes to that non-empty name and its id is one of the author's |
| `CmdUtil.AttachedPermutation` | src/definition/single_cmd_scheme/cmd_util.py:27-35 | reordering the affiliations only reorders what each author gets: the same multiset |
| `CmdUtil.JoinedAuthors` | src/definition/single_cmd_scheme/cmd_util.py:23-39 | exactly one author per input author, in order, with its sanitized name and exactly its attached affiliations |
| `CmdUtil.CmdNameShape` | src/definition/single_cmd_scheme/cmd_util.py:161-165 | for a command with a `{`, the name is a slice of the command after its first character holding no `{` or `[`, with no `*` or space at its ends |
| `CmdUtil.NameEnd` | src/definition/single_cmd_scheme/cmd_util.py:162-164 | the name ends at the first `[` when it comes before the first `{`, else at the first `{`; neither occurs earlier |
| `Authors.Eq` | src/definition/data/Author.py:9-23 | `__eq__` is NotImplemented exactly for a non-Author; otherwise true iff the names are equal, the affiliation counts are equal and every own affiliation occurs in the other's list |
| `Authors.ElemsSize` | src/definition/data/Author.py:16-21 | a list has at least as many entries as distinct names, and exactly as many without duplicates |
| `Authors.EqReflexive` | src/definition/data/Author.py:9-23 | an author equals itself |
| `Authors.EqIgnoresOrder` | src/definition/data/Author.py:16-21 | a reordered affiliation list compares equal, both ways |
| `Authors.EqAsymmetricWithDuplicates` | src/definition/data/Author.py:19-21 | `["a", "a"]` equals `["a", "b"]` but not the other way round |
| `Authors.EqSymmetricWithoutDuplicates` | src/definition/data/Author.py:16-21 | without duplicates on the left, equality is symmetric and both lists hold the same names |
| `AffAddrScheme.ValidatorsExclusive` | src/definition/single_cmd_scheme/affaddr.py:208-277 | `AffAddr`, `AffMarkAffAddr` and `AffMarkNoAffAddr` are pairwise exclusive; `AffAddr` excludes `AlignAuthorAffAddr`, and `AffAddrMathMode` excludes both `\affmark` schemes |
| `AffAddrScheme.HasAffaddrBlock` | src/definition/single_cmd_scheme/affaddr.py:119-133 | the flag loop returns true iff there are at least 3 parts and, ignoring the first, no non-`\affaddr` part follows an `\affaddr` part |
| `AffAddrScheme.AffaddrBlock` | src/definition/single_cmd_scheme/affaddr.py:102-115 | every name of every name line gets exactly one affiliation: the sanitized `", "`-join of all `\affaddr` parts |
| `AffAddrScheme.Ordered` | src/definition/single_cmd_scheme/affaddr.py:70-88 | the method with its accumulators and nested flush loop computes the grouping specification |
| `AffAddrScheme.OrderedKeepsEveryName` | src/definition/single_cmd_scheme/affaddr.py:70-88 | `_ordered` loses no name: one author per name of every name part, trailing names included |
| `AffAddrScheme.OrderedCount` | src/definition/single_cmd_scheme/affaddr.py:70-88 | after any prefix of the parts, the authors flushed and the names still pending together are all the names seen |
| `AffAddrScheme.OrderedAffiliationsFromLines` | src/definition/single_cmd_scheme/affaddr.py:70-88 | every affiliation handed out is a sanitized `\affaddr` part of the input |
| `AffAddrScheme.OrderedAlternating` | src/definition/single_cmd_scheme/affaddr.py:70-88 | on alternating name and `\affaddr` parts the names of each part get exactly the one affiliation that follows them |
| `AffAddrScheme.FoldPair` | src/definition/single_cmd_scheme/affaddr.py:76-84 | a name part arriving after both names and affiliations flushes the pending group, which shares the current affiliation list |
| `AffAddrScheme.SingleAff` | src/definition/single_cmd_scheme/affaddr.py:136-144 | `[]` when the second part has no `\affaddr{…}`; otherwise author `k` is the sanitized `k`-th name of the first part, and every one shares the sanitized content as its one affiliation |
| `AffAddrScheme.AffAddrExtract` | src/definition/single_cmd_scheme/affaddr.py:279-294 | no part gives `[]`; exactly two parts go to `_single_aff`; an affaddr block goes to `_affaddr_block`; anything else to `_ordered` |
| `AffAddrScheme.MarkedAffiliation` | src/definition/single_cmd_scheme/affaddr.py:161-169 | `_ext_affiliations` raises exactly when the text has no `\affmark[…]`; otherwise the id is trimmed |
| `AffAddrScheme.MarkedAffiliationTrimmed` | src/definition/single_cmd_scheme/affaddr.py:161-169 | the affiliation name `_ext_affiliations` finds has none of `{},\ ` at either end |
| `AffAddrScheme.ExtAuthors` | src/definition/single_cmd_scheme/affaddr.py:147-158 | one author per `AFFMARK_AUTHOR` match, in order |
| `AffAddrScheme.MarkedAuthorCommaIds` | src/definition/single_cmd_scheme/affaddr.py:149-152 | a comma-separated mark gives ids that are neither empty nor hold a comma |
| `AffAddrScheme.MarkLineRaise` | src/definition/single_cmd_scheme/affaddr.py:253-258 | one `\\`-line raises exactly when it starts with `\affmark` without an `\affmark[…]` |
| `AffAddrScheme.MarkLinesRaise` | src/definition/single_cmd_scheme/affaddr.py:249-263 | `AffMarkNoAffAddr.extract` raises exactly when some line starts with `\affmark` without an `\affmark[…]` |
| `AffAddrScheme.MarkLine` | src/definition/single_cmd_scheme/affaddr.py:254-258 | one line is an affiliation when it starts with `\affmark`, else a source of authors |
| `AffAddrScheme.AffMarkNoAffAddrExtract` | src/definition/single_cmd_scheme/affaddr.py:249-263 | merge adjacent marks, sort the lines into affiliations and authors, and join them by id |
| `AffAddrScheme.Pieces` | src/definition/single_cmd_scheme/affaddr.py:222-233 | an `\affaddr{…}` that wraps others hands over the wrapped contents, any other one its own content |
| `AffAddrScheme.AddMarked` | src/definition/single_cmd_scheme/affaddr.py:228-231 | appending `_ext_affiliations(piece)` raises exactly when the piece has no `\affmark[…]`, else appends its one affiliation |
| `AffAddrScheme.AffMarkAffAddrRaise` | src/definition/single_cmd_scheme/affaddr.py:218-236 | `AffMarkAffAddr.extract` raises exactly when some `\affaddr{…}` piece holds no `\affmark[…]` |
| `AffAddrScheme.MarkedAllTrimmed` | src/definition/single_cmd_scheme/affaddr.py:161-169 | every affiliation `AffMarkAffAddr` keeps has a trimmed id |
| `AffAddrScheme.AffaddrGroup` | src/definition/single_cmd_scheme/affaddr.py:224-233 | one round of the outer loop appends the affiliations of one `\affaddr{…}` and deletes its text, or of each wrapped group |
| `AffAddrScheme.AffaddrGroupsRaise` | src/definition/single_cmd_scheme/affaddr.py:223-233 | a raise on the first groups is a raise of the whole extraction |
| `AffAddrScheme.AffMarkAffAddrExtract` | src/definition/single_cmd_scheme/affaddr.py:218-236 | the extraction of `AffMarkAffAddr` computes its specification, raising where it raises |
| `AffAddrScheme.NonEmptyPiece` | src/definition/single_cmd_scheme/affaddr.py:186-190 | a stripped `\affaddr{…}` content is kept exactly when it is non-empty |
| `AffAddrScheme.AlignAuthorPart` | src/definition/single_cmd_scheme/affaddr.py:184-197 | every name of one `\alignauthor` part carries exactly one affiliation |
| `AffAddrScheme.AlignAuthorPartsOneEach` | src/definition/single_cmd_scheme/affaddr.py:181-199 | every author of `AlignAuthorAffAddr` carries exactly one affiliation |
| `AffAddrScheme.AlignAuthorPartShared` | src/definition/single_cmd_scheme/affaddr.py:184-197 | within a part every author shares the sanitized `", "`-join of the non-empty `\affaddr` contents |
| `AffAddrScheme.AlignAuthorPartExtract` | src/definition/single_cmd_scheme/affaddr.py:184-197 | the loop body for one part computes that part's authors |
| `AffAddrScheme.AlignAuthorAffAddrExtract` | src/definition/single_cmd_scheme/affaddr.py:181-199 | the extraction concatenates the authors of every non-empty `\alignauthor` part, in order |
| `AffAddrScheme.MathAffiliation` | src/definition/single_cmd_scheme/affaddr.py:11-22 | an `\affaddr{…}` without a math-mode reference gives nothing, otherwise one affiliation |
| `AffAddrScheme.MathAuthor` | src/definition/single_cmd_scheme/affaddr.py:26-34 | a `MATH_AUTHOR_REF` match is skipped iff its name or its reference is empty, else its ids are split from the trimmed reference |
| `AffAddrScheme.MatchTexts` | src/definition/single_cmd_scheme/affaddr.py:12 | the text of every match, in order |
| `AffAddrScheme.WithoutAlignauthor` | src/definition/single_cmd_scheme/affaddr.py:25 | a leading `\alignauthor ` is cut off, any other text is kept |
| `AffAddrScheme.BasicAffaddrMathCase` | src/definition/single_cmd_scheme/affaddr.py:9-37 | one author per `MATH_AUTHOR_REF` match that has a name and a reference |
| `AffAddrScheme.MathAffiliations` | src/definition/single_cmd_scheme/affaddr.py:10-22 | the first loop collects the affiliations and deletes every `\affaddr{…}` from the content |
| `AffAddrScheme.MathAuthors` | src/definition/single_cmd_scheme/affaddr.py:24-35 | the second loop collects the authors of the remaining content |
| `AffAddrScheme.BasicAffaddrMathCaseExtract` | src/definition/single_cmd_scheme/affaddr.py:9-37 | the method computes `_basic_affaddr_math_case` |
| `AffAddrScheme.BasicAffaddrMathCaseNames` | src/definition/single_cmd_scheme/affaddr.py:24-37 | the authors are exactly the matches with a name and a reference, in order, each with its sanitized name |
| `AffAddrScheme.AlignauthorPartShared` | src/definition/single_cmd_scheme/affaddr.py:44-55 | without `$` and with one `affaddr`: no `\affaddr{…}` gives `[]`, otherwise every name of the rest shares its sanitized content |
| `AffAddrScheme.AlignauthorPartExtract` | src/definition/single_cmd_scheme/affaddr.py:42-57 | the loop body for one `\alignauthor{…}` takes the shared path or the math case |
| `AffAddrScheme.AlignauthorBlockExtract` | src/definition/single_cmd_scheme/affaddr.py:40-60 | `_alignauthor_block` concatenates the authors of every `\alignauthor{…}` in order |
| `AffAddrScheme.AffAddrMathModeExtract` | src/definition/single_cmd_scheme/affaddr.py:317-327 | the extraction computes the merge of adjacent math references and drops it |
| `AffAddrScheme.AlignBlocksIgnoreMerge` | src/definition/single_cmd_scheme/affaddr.py:318-325 | the alignment groups do not depend on the merge |
| `AffAddrScheme.AffAddrMathModeIgnoresMerge` | src/definition/single_cmd_scheme/affaddr.py:317-327 | because the merge result is discarded, the authors are the same whatever the merge does |
| `AuthorBlockScheme.BlockOf` | src/definition/single_cmd_scheme/authorblock.py:69-72 | a block is a name block iff its letter lowers to `n`, and its content is the trimmed inside of the brace group |
| `AuthorBlockScheme.Authorblocks` | src/definition/single_cmd_scheme/authorblock.py:66-74 | one block per `EXT_AUTHORBLOCK_BLOCKS` match |
| `AuthorBlockScheme.GetAuthorblocks` | src/definition/single_cmd_scheme/authorblock.py:66-74 | the loop computes the blocks in match order |
| `AuthorBlockScheme.AuthorblocksAt` | src/definition/single_cmd_scheme/authorblock.py:66-74 | block `k` is the block of match `k`: a name block iff its letter is `n` or `N`, with the trimmed content |
| `AuthorBlockScheme.CheckedEnd` | src/definition/single_cmd_scheme/authorblock.py:139-142 | the blocks checked are all of them, or all but a final name block that has `@` and no refmark |
| `AuthorBlockScheme.AuthorBlockWithRefValid` | src/definition/single_cmd_scheme/authorblock.py:132-150 | the validator raises only when all three substrings occur but no block is found, since it takes `blocks[-1]` |
| `AuthorBlockScheme.AuthorBlockWithRefValidate` | src/definition/single_cmd_scheme/authorblock.py:132-150 | the method with its early returns computes that validator |
| `AuthorBlockScheme.RefmarkedUpTo` | src/definition/single_cmd_scheme/authorblock.py:145-148 | the loop answers true iff every checked block has a refmark |
| `AuthorBlockScheme.MathExcludesWithRef` | src/definition/single_cmd_scheme/authorblock.py:179-197 | `AuthorBlockMath` and `AuthorBlockWithRef` never both accept: the first rejects `authorrefmark`, which the second requires |
| `AuthorBlockScheme.RefValidatorsImplyAuthorBlock` | src/definition/single_cmd_scheme/authorblock.py:83-85 | both ref-based validators imply `AuthorBlock.validate` |
| `AuthorBlockScheme.AuthorBlockExtract` | src/definition/single_cmd_scheme/authorblock.py:87-123 | the state machine over the blocks computes its specification |
| `AuthorBlockScheme.AuthorBlockOneNonEmpty` | src/definition/single_cmd_scheme/authorblock.py:104-121 | every author `AuthorBlock.extract` emits has exactly one non-empty affiliation |
| `AuthorBlockScheme.TrailingNameBlock` | src/definition/single_cmd_scheme/authorblock.py:119-121 | a final name block with no affiliation block after it contributes nothing |
| `AuthorBlockScheme.AffBlocksOnly` | src/definition/single_cmd_scheme/authorblock.py:106-107 | affiliation blocks alone leave the names and the authors empty |
| `AuthorBlockScheme.LeadingAffBlocks` | src/definition/single_cmd_scheme/authorblock.py:104-117 | affiliation blocks before the first name block are discarded |
| `AuthorBlockScheme.RefAuthorOf` | src/definition/single_cmd_scheme/authorblock.py:53-63 | one match gives the stripped name and one stripped id per comma-separated piece |
| `AuthorBlockScheme.AuthorBlockWithRefExtract` | src/definition/single_cmd_scheme/authorblock.py:152-169 | authors from name blocks and affiliations from affiliation blocks are joined by id |
| `AuthorBlockScheme.RefAuthorsIn` | src/definition/single_cmd_scheme/authorblock.py:53-63 | `_get_author_refs_from_block` gives one author per match, in order |
| `AuthorBlockScheme.RefAffiliationsIn` | src/definition/single_cmd_scheme/authorblock.py:40-50 | `_get_affiliation_refs_from_block` gives one affiliation per match, in order |
| `AuthorBlockScheme.WithRefSources` | src/definition/single_cmd_scheme/authorblock.py:159-167 | authors come only from name blocks and affiliations only from affiliation blocks |
| `AuthorBlockScheme.MathAuthorOf` | src/definition/single_cmd_scheme/authorblock.py:23-37 | a match is skipped iff its name stripped of `, ` or its reference stripped of `$^{} ` is empty; else its ids are split from the reference |
| `AuthorBlockScheme.FindAuthors` | src/definition/single_cmd_scheme/authorblock.py:23-37 | the loop collects those authors in order |
| `AuthorBlockScheme.FindAffiliations` | src/definition/single_cmd_scheme/authorblock.py:10-20 | one affiliation per `MATH_AFFILIATION` match, in order |
| `AuthorBlockScheme.AuthorBlockMathExtract` | src/definition/single_cmd_scheme/authorblock.py:199-213 | name blocks (with merged math references) give authors, other blocks affiliations, joined by id |
| `AuthorBlockScheme.MathAuthorsNamed` | src/definition/single_cmd_scheme/authorblock.py:23-37 | every author found has a non-empty name |
| `MathModeScheme.AuthorMathModeAffValidate` | src/definition/single_cmd_scheme/math_mode.py:116-136 | the method with its early returns computes the validator: an even, non-zero number of `$`, at least two math references, none of the invalid commands, and a command other than `authorinfo` |
| `MathModeScheme.ExcludesAffaddrSchemes` | src/definition/single_cmd_scheme/math_mode.py:126-130 | the math-mode scheme never accepts what an `\affaddr` scheme accepts, since `\affaddr` is one of its invalid commands |
| `MathModeScheme.SingleDollarAuthorPart` | src/definition/single_cmd_scheme/math_mode.py:61-69 | a part with a single `$` is an author part exactly when that `$` ends it |
| `MathModeScheme.SplitToMathPartsLoop` | src/definition/single_cmd_scheme/math_mode.py:93-107 | the backwards walk with its buffer, reversed at the end, computes the math parts |
| `MathModeScheme.GluedPartsHaveDollar` | src/definition/single_cmd_scheme/math_mode.py:97-102 | every part the loop gathers from a part with `$` holds a `$` |
| `MathModeScheme.MathPartsHaveDollar` | src/definition/single_cmd_scheme/math_mode.py:93-107 | every math part except possibly the first holds a `$` |
| `MathModeScheme.GlueFreeParts` | src/definition/single_cmd_scheme/math_mode.py:98-99 | `$`-free parts are glued onto the pending text with no `\\` between them |
| `MathModeScheme.MathPartGlued` | src/definition/single_cmd_scheme/math_mode.py:97-102 | a part with `$` and the `$`-free parts after it make one stripped math part, the texts concatenated without the separator |
| `MathModeScheme.GlueHead` | src/definition/single_cmd_scheme/math_mode.py:100-102 | a part with `$` takes the pending text and empties the buffer |
| `MathModeScheme.MathAuthorOf` | src/definition/single_cmd_scheme/math_mode.py:28-42 | a match is skipped iff its name or its stripped reference is empty; else its ids are split from the reference |
| `MathModeScheme.MathAffiliationOf` | src/definition/single_cmd_scheme/math_mode.py:45-58 | a match is skipped iff its name or its stripped reference is empty; else the stripped reference is the id |
| `MathModeScheme.FindAuthorsLoop` | src/definition/single_cmd_scheme/math_mode.py:28-42 | the loop collects those authors in order |
| `MathModeScheme.FindAffiliationsLoop` | src/definition/single_cmd_scheme/math_mode.py:45-58 | the loop collects those affiliations in order |
| `MathModeScheme.AuthorMathModeAffExtract` | src/definition/single_cmd_scheme/math_mode.py:138-153 | affiliation parts give affiliations, otherwise author parts give authors, joined by id |
| `MathModeScheme.FoundAuthorsNamed` | src/definition/single_cmd_scheme/math_mode.py:28-42 | every author found has a non-empty name |
| `MathModeScheme.FoundAffiliationsNamed` | src/definition/single_cmd_scheme/math_mode.py:45-58 | every affiliation found has a non-empty name and id |
| `NameAddrScheme.TextSuperScriptImpliesNameAddr` | src/definition/single_cmd_scheme/name_addr.py:55-63 | the superscript variant accepts exactly what the plain one accepts that also holds `\textsuperscript` |
| `NameAddrScheme.NameAddrExtract` | src/definition/single_cmd_scheme/name_addr.py:23-45 | the loop over the parts computes the grouped authors |
| `NameAddrScheme.NameAddrOnePerName` | src/definition/single_cmd_scheme/name_addr.py:28-45 | one author per `\name` part: none lost, none made up |
| `NameAddrScheme.NameAddrFlushedGroups` | src/definition/single_cmd_scheme/name_addr.py:29-35 | a group of names is flushed only once an `\addr` has followed it, so flushed authors all carry affiliations |
| `NameAddrScheme.NameAddrIgnoresOtherParts` | src/definition/single_cmd_scheme/name_addr.py:40 | a part that is neither `\name` nor `\addr` changes nothing |
| `NameAddrScheme.NameAddrTextSuperScriptExtract` | src/definition/single_cmd_scheme/name_addr.py:65-100 | the loop over the parts computes the superscript variant's result |
| `NameAddrScheme.NameTsAuthors` | src/definition/single_cmd_scheme/name_addr.py:75-87 | a `\name` part gives its split names, each with the part's reference ids |
| `NameAddrScheme.AppendTsAuthors` | src/definition/single_cmd_scheme/name_addr.py:83-87 | the inner loop appends one author per name, in order |
| `NameAddrScheme.TsSources` | src/definition/single_cmd_scheme/name_addr.py:74-98 | authors come only from `\name` parts and affiliations only from `\addr` parts, each holding a `\textsuperscript` |
| `NameAddrScheme.TsAuthorsShareIds` | src/definition/single_cmd_scheme/name_addr.py:76-87 | every author of a `\name` part carries that part's reference ids |
| `CompSocThanksScheme.SplitNameAndAffiliation` | src/definition/single_cmd_scheme/compsocthanks.py:40-58 | at most one pair, and one exactly when one predicative expression occurs |
| `CompSocThanksScheme.SplitNameAndAffiliationPair` | src/definition/single_cmd_scheme/compsocthanks.py:41-58 | the pair is the stripped text before and after that expression |
| `CompSocThanksScheme.MatchNameWithAffiliationLoop` | src/definition/single_cmd_scheme/compsocthanks.py:9-37 | the loop over the authors computes the matching |
| `CompSocThanksScheme.AllAuthorsShare` | src/definition/single_cmd_scheme/compsocthanks.py:10-12 | for "all authors", "all the authors" or "authors" every author, in order, gets the affiliation |
| `CompSocThanksScheme.MatchedExactlyMentioned` | src/definition/single_cmd_scheme/compsocthanks.py:14-37 | otherwise an author gets the affiliation exactly when the name part mentions their full name, last name or "the other authors", with at most one entry per author |
| `CompSocThanksScheme.MatchOneAffiliationEach` | src/definition/single_cmd_scheme/compsocthanks.py:12-35 | every author matched carries exactly one affiliation |
| `CompSocThanksScheme.JoinThanksLoop` | src/definition/single_cmd_scheme/compsocthanks.py:61-72 | the loop over the itemize blocks computes the joined content |
| `CompSocThanksScheme.JoinThanksNoBlock` | src/definition/single_cmd_scheme/compsocthanks.py:61-72 | with no block (start and end stay -1) an empty block is spliced in before the last character |
| `CompSocThanksScheme.JoinThanksKeepsOutside` | src/definition/single_cmd_scheme/compsocthanks.py:65-72 | with blocks, the text before the first and after the last is kept around one joined block |
| `CompSocThanksScheme.ExtractCompSocThanksLoop` | src/definition/single_cmd_scheme/compsocthanks.py:75-95 | the loops over items and pairs compute the extraction |
| `CompSocThanksScheme.ExtractJoinedLoop` | src/definition/single_cmd_scheme/compsocthanks.py:77-95 | the loop over the items of the joined content computes its authors |
| `CompSocThanksScheme.ItemAuthorsLoop` | src/definition/single_cmd_scheme/compsocthanks.py:90-93 | the inner loop over an item's pair computes its authors |
| `CompSocThanksScheme.CompSocOneAffiliationEach` | src/definition/single_cmd_scheme/compsocthanks.py:75-95 | every author the scheme produces carries exactly one affiliation |
| `CompSocThanksScheme.EmptyBlockGivesNothing` | src/definition/single_cmd_scheme/compsocthanks.py:84-86 | an empty itemize block gives no author |
| `ThanksScheme.ThanksWithValidate` | src/definition/single_cmd_scheme/thanks.py:99-122 | the loop over the `\thanks` matches with its early returns computes the validity: every `\thanks` holds a predicative expression and every separated part an emptied `\thanks{}` |
| `ThanksScheme.EveryPartThankedLoop` | src/definition/single_cmd_scheme/thanks.py:117-122 | the loop is true exactly when every part holds `\thanks{}` |
| `ThanksScheme.ThanksWithImpliesThanksWithMath` | src/definition/single_cmd_scheme/thanks.py:145-153 | whatever `ThanksWith` accepts, `ThanksWithMath` accepts |
| `ThanksScheme.ThanksMathNeeds` | src/definition/single_cmd_scheme/thanks.py:47-59 | `ThanksMath` accepts exactly when the lower-cased command holds `\thanks`, a math reference and no predicative expression |
| `ThanksScheme.ThanksExtractLoop` | src/definition/single_cmd_scheme/thanks.py:30-38 | the loop over the name and `\thanks` matches computes the authors |
| `ThanksScheme.ThanksOnePerMatch` | src/definition/single_cmd_scheme/thanks.py:30-38 | one author per match, in order, with the match's `\thanks` content, braces removed, as its one affiliation |
| `ThanksScheme.ThanksWithExtractLoop` | src/definition/single_cmd_scheme/thanks.py:124-137 | the loop over the matches computes the authors |
| `ThanksScheme.ThanksWithMatch` | src/definition/single_cmd_scheme/thanks.py:128-135 | one match gives an author or, through `continue`, nothing |
| `ThanksScheme.ThanksWithKeepsTwoPartSentences` | src/definition/single_cmd_scheme/thanks.py:127-135 | an author is produced exactly for a match whose `\thanks` holds one predicative expression, with the math-free name and the text after the expression as its affiliation |
| `ThanksScheme.ThanksWithOneAffiliationEach` | src/definition/single_cmd_scheme/thanks.py:124-137 | every author `ThanksWith` produces carries exactly one affiliation |
| `ThanksScheme.ThanksMathExtractLoop` | src/definition/single_cmd_scheme/thanks.py:61-90 | the two loops compute the authors joined to the affiliations by id |
| `ThanksScheme.ThanksLoop` | src/definition/single_cmd_scheme/thanks.py:67-78 | the loop removes each `\thanks` from the command and gathers the affiliations inside them |
| `ThanksScheme.MathAffiliationsIn` | src/definition/single_cmd_scheme/thanks.py:72-78 | the inner loop gives one affiliation per math reference, in order |
| `ThanksScheme.ThanksMathAffiliationSources` | src/definition/single_cmd_scheme/thanks.py:67-78 | an affiliation comes from some math reference inside some `\thanks{…}`, and every such reference gives one |
| `ThanksScheme.AsCompSocCommandLoop` | src/definition/single_cmd_scheme/thanks.py:157-164 | the rewriting loop builds the equivalent `\IEEEcompsocitemizethanks` command |
| `ThanksScheme.ThanksWithMathOneAffiliationEach` | src/definition/single_cmd_scheme/thanks.py:155-165 | every author `ThanksWithMath` produces carries exactly one affiliation |
| `RrAuthorScheme.RrAuthorValidatorsExclusive` | src/definition/single_cmd_scheme/rrauthor.py:76-133 | at most one of the three `\RRauthor` schemes accepts a command |
| `RrAuthorScheme.RebuiltCopiesOutside` | src/definition/single_cmd_scheme/rrauthor.py:15-28 | the match-by-match rebuilding keeps every character outside the matches: replacing each match by its own text gives the text back |
| `RrAuthorScheme.SubstituteThanksArgumentLoop` | src/definition/single_cmd_scheme/rrauthor.py:49-66 | the loop computes the rebuilt text and the recorded entries |
| `RrAuthorScheme.SubstituteRecordsEachMatch` | src/definition/single_cmd_scheme/rrauthor.py:53-63 | one entry per `\thanks{…}`, in order, under the fresh id whose `\thanks{id}` replaces that match, with the sanitized stripped content |
| `RrAuthorScheme.ReplaceThanksWithRefLoop` | src/definition/single_cmd_scheme/rrauthor.py:15-28 | the loop computes the rebuilt text and the recorded affiliations |
| `RrAuthorScheme.ReplaceRecordsEachMatch` | src/definition/single_cmd_scheme/rrauthor.py:19-25 | one affiliation per `\thanks[…]{…}`, in order; an explicit id is kept, else a fresh one is used; the match is replaced by a `\thanksref` to that id |
| `RrAuthorScheme.FirstWithId` | src/definition/single_cmd_scheme/rrauthor.py:42 | the first entry with the id, or none exactly when no entry has it, where the source raises `StopIteration` |
| `RrAuthorScheme.ExtractWithSubstituteLoop` | src/definition/single_cmd_scheme/rrauthor.py:31-46 | the loop over the parts computes the authors or the raise |
| `RrAuthorScheme.ExtractWithSubstituteParts` | src/definition/single_cmd_scheme/rrauthor.py:31-46 | unless it raises, one author per part with one affiliation, and a part without `\thanks` gets the sanitized default affiliation |
| `RrAuthorScheme.ExtractWithSubstituteRaises` | src/definition/single_cmd_scheme/rrauthor.py:41-42 | it raises exactly when entries are given and some part's `\thanks{id}` names an id no entry has |
| `RrAuthorScheme.CollectNoneStays` | src/definition/single_cmd_scheme/rrauthor.py:34-44 | once the loop has raised, no later part undoes it |
| `RrAuthorScheme.SanitizedDefaultTrimmed` | src/definition/single_cmd_scheme/rrauthor.py:10 | the sanitized default affiliation differs from the raw one, which starts with a space |
| `RrAuthorScheme.RrAuthorThanksAndNeverRaises` | src/definition/single_cmd_scheme/rrauthor.py:80-86 | with `\and` separators no entries are looked up, so the extraction never raises |
| `RrAuthorScheme.RrAuthorThanksExtractLoop` | src/definition/single_cmd_scheme/rrauthor.py:80-86 | the method computes `RrAuthorThanks.extract` |
| `RrAuthorScheme.RrAuthorThanksRefExtractLoop` | src/definition/single_cmd_scheme/rrauthor.py:101-121 | the method computes `RrAuthorThanksRef.extract` |
| `RrAuthorScheme.RefPartsAuthors` | src/definition/single_cmd_scheme/rrauthor.py:111-119 | the loop over the parts computes the authors or the raise |
| `RrAuthorScheme.RefPartAuthorStep` | src/definition/single_cmd_scheme/rrauthor.py:112-119 | one part gives its author, or the raise when its `\thanksref` id is unknown |
| `RrAuthorScheme.RrAuthorThanksRefOutcome` | src/definition/single_cmd_scheme/rrauthor.py:101-121 | it raises exactly when some part refers to an undefined id; otherwise one author per part with one affiliation, the default one verbatim for a part without `\thanksref` |
| `RrAuthorScheme.RrAuthorNoThanksDefault` | src/definition/single_cmd_scheme/rrauthor.py:135-137 | one author per name, each with the default affiliation verbatim, leading space included |
| `FootnoteScheme.Tally` | src/definition/single_cmd_scheme/footnote.py:48-54 | the dictionary has exactly the marks found as keys, each with its number of occurrences |
| `FootnoteScheme.CountMarks` | src/definition/single_cmd_scheme/footnote.py:48-54 | the counting loop builds that dictionary |
| `FootnoteScheme.AllAtLeastTwice` | src/definition/single_cmd_scheme/footnote.py:59-62 | the second loop succeeds exactly when every mark counted occurs at least twice |
| `FootnoteScheme.FootnoteMarkValidate` | src/definition/single_cmd_scheme/footnote.py:44-64 | the method computes the validity with its early returns |
| `FootnoteScheme.FootnoteMarkValidIff` | src/definition/single_cmd_scheme/footnote.py:44-64 | valid exactly when `\footnotemark` occurs, some mark is found, and every mark found occurs at least twice |
| `FootnoteScheme.TallyAtLeastTwice` | src/definition/single_cmd_scheme/footnote.py:56-62 | a non-empty dictionary whose counts are all at least 2 is the same as a non-empty list whose every element occurs at least twice |
| `FootnoteScheme.FootnoteSchemesExclusive` | src/definition/single_cmd_scheme/footnote.py:91-96 | no command is accepted by both `FootnoteMark` and `Footnote` |
| `FootnoteScheme.FootnoteMarkExtract` | src/definition/single_cmd_scheme/footnote.py:66-83 | the loop over the lines computes the authors joined to the affiliations by id |
| `FootnoteScheme.AuthorsFromPartLoop` | src/definition/single_cmd_scheme/footnote.py:10-23 | the nested loops compute the authors of a line |
| `FootnoteScheme.SubpartAuthorsLoop` | src/definition/single_cmd_scheme/footnote.py:14-21 | the inner loop gives one author per match of a piece, in order |
| `FootnoteScheme.AffiliationsFromPartLoop` | src/definition/single_cmd_scheme/footnote.py:26-36 | the loop gives one affiliation per match, in order |
| `FootnoteScheme.FootnoteMarkSides` | src/definition/single_cmd_scheme/footnote.py:76-81 | affiliations come only from lines that start with `\footnotemark` once stripped of `{` and spaces, authors only from the other lines |
| `FootnoteScheme.AuthorIdsClean` | src/definition/single_cmd_scheme/footnote.py:17 | every reference id an author carries is non-empty and stripped |
| `FootnoteScheme.FootnoteExtract` | src/definition/single_cmd_scheme/footnote.py:98-107 | the loop over the matches computes the authors |
| `FootnoteScheme.FootnoteOnePerMatch` | src/definition/single_cmd_scheme/footnote.py:98-107 | one author per match, in order, with the stripped name and exactly its stripped `\footnote` content |
| `PyStr.NonEmptyStrippedKeeps` | src/definition/single_cmd_scheme/footnote.py:17 | every piece that is not blank is kept, stripped |
| `TextSuperScriptScheme.TextSuperScriptValidators` | src/definition/single_cmd_scheme/textsuperscript.py:57-120 | the first scheme accepts exactly with at least two `\textsuperscript`; whatever the other two accept it accepts, and the third also needs `\name` and `\affil{` |
| `TextSuperScriptScheme.FindAuthorsLoop` | src/definition/single_cmd_scheme/textsuperscript.py:26-43 | the loop computes the authors with its `continue` |
| `TextSuperScriptScheme.FindAffiliationsLoop` | src/definition/single_cmd_scheme/textsuperscript.py:10-23 | the loop computes the affiliations with its `continue` |
| `TextSuperScriptScheme.FoundAuthorsFrom` | src/definition/single_cmd_scheme/textsuperscript.py:26-43 | every author comes from a match with a non-empty name and reference, its name with a leading `and ` removed, its ids non-empty and stripped |
| `TextSuperScriptScheme.FoundAffiliationsFrom` | src/definition/single_cmd_scheme/textsuperscript.py:10-23 | every affiliation comes from a match with a non-empty stripped name and a non-empty reference |
| `TextSuperScriptScheme.SubTsMathShape` | src/definition/single_cmd_scheme/textsuperscript.py:46-48 | the replacement wraps in `$^{` and `}$` a slice of the content that neither starts nor ends with `$`, `,` or a space |
| `TextSuperScriptScheme.AuthorTextSuperScriptExtract` | src/definition/single_cmd_scheme/textsuperscript.py:65-74 | the method computes the math-mode extraction of the rewritten content |
| `TextSuperScriptScheme.AuthorDoubleTextSuperScriptExtract` | src/definition/single_cmd_scheme/textsuperscript.py:94-101 | the method computes the authors joined to the double-superscript affiliations by id |
| `TextSuperScriptScheme.AuthorTextSuperScriptNameAffilExtract` | src/definition/single_cmd_scheme/textsuperscript.py:122-152 | the method computes the `\name`/`\affil` extraction |
| `TextSuperScriptScheme.AffilAffiliations` | src/definition/single_cmd_scheme/textsuperscript.py:140-150 | the loop over the `\affil` pieces gathers their affiliations |
| `TextSuperScriptScheme.NameAffilAtMostOnePerPiece` | src/definition/single_cmd_scheme/textsuperscript.py:122-150 | without `\name{…}` or `\affil{…}` nothing is extracted, and each piece gives at most one affiliation |
| `AffiliationScheme.AffiliationValidators` | src/definition/single_cmd_scheme/affiliation.py:14-108 | `AffiliationMath` accepts only what `NameAffiliation` accepts and needs a math reference; both refuse `\sup` and `\authorname`; whatever `Affiliations` accepts the other two refuse, and it holds `\affiliation` |
| `AffiliationScheme.NameAffiliationExtract` | src/definition/single_cmd_scheme/affiliation.py:24-38 | the nested loops compute the authors |
| `AffiliationScheme.NameAffiliationShares` | src/definition/single_cmd_scheme/affiliation.py:31-36 | an author is exactly one name of the name part of some match, with that match's stripped, sanitized brace content as its one affiliation |
| `AffiliationScheme.MathAffiliationsIn` | src/definition/single_cmd_scheme/affiliation.py:79-85 | the inner loop gives one affiliation per math reference, in order |
| `AffiliationScheme.MathAffiliationsFrom` | src/definition/single_cmd_scheme/affiliation.py:128-135 | an affiliation gathered from several texts is exactly one math reference of one of them |
| `AffiliationScheme.CmdMathExtract` | src/definition/single_cmd_scheme/affiliation.py:75-96 | the two loops and the join compute the authors |
| `AffiliationScheme.AffiliationMathExtract` | src/definition/single_cmd_scheme/affiliation.py:64-96 | the method computes `AffiliationMath.extract` |
| `AffiliationScheme.CmdMathLoop` | src/definition/single_cmd_scheme/affiliation.py:76-85 | the loop deletes every `\affiliation{…}` from the text and gathers the math references inside them |
| `AffiliationScheme.CmdMathAffiliationsFrom` | src/definition/single_cmd_scheme/affiliation.py:76-85 | affiliations come only from inside the matched commands, one per math reference there |
| `AffiliationScheme.CmdMathAuthors` | src/definition/single_cmd_scheme/affiliation.py:87-96 | author `i` is the `i`-th math reference of the text left after deletion, and carries exactly the affiliations whose id it cites |
| `AffiliationScheme.AffiliationsExtract` | src/definition/single_cmd_scheme/affiliation.py:110-137 | the method computes `Affiliations.extract` |
| `AffiliationScheme.AffiliationsSplitAtFirst` | src/definition/single_cmd_scheme/affiliation.py:117 | the first part is the text before the first `\affiliations` (all of it without one); the later parts rejoined are the text after it |
| `AffiliationScheme.AffiliationsAuthorsFromFirst` | src/definition/single_cmd_scheme/affiliation.py:118-125 | one author per math reference of the first part, in order |
| `AffiliationScheme.AffiliationsFromRest` | src/definition/single_cmd_scheme/affiliation.py:127-135 | affiliations are exactly the math references of the later parts |
| `AffilScheme.AffilValidators` | src/definition/single_cmd_scheme/affil.py:50-107 | the three `\affil` validators are pairwise exclusive |
| `AffilScheme.InstSegments` | src/definition/single_cmd_scheme/affil.py:10-13 | one segment per consecutive pair of cut points |
| `AffilScheme.FindAffiliationsLoop` | src/definition/single_cmd_scheme/affil.py:9-25 | the loop over consecutive cut points computes the affiliations |
| `AffilScheme.InstSegmentsCut` | src/definition/single_cmd_scheme/affil.py:10-13 | segment `k` runs from the `k`-th `\inst{` to the next, and the last ends one character before the end of the text |
| `AffilScheme.FindAffiliationsFrom` | src/definition/single_cmd_scheme/affil.py:12-23 | an affiliation is exactly the first `\inst{…}` of some segment, its stripped content as reference and the segment without it as name; at most one per segment |
| `AffilScheme.NameAffilExtract` | src/definition/single_cmd_scheme/affil.py:34-48 | the method computes `NameAffil.extract` |
| `AffilScheme.UnwrapsFirstName` | src/definition/single_cmd_scheme/affil.py:37-39 | only the first `\name{…}` is unwrapped; the text around it is kept, and content without one is unchanged |
| `AffilScheme.NameAffilShares` | src/definition/single_cmd_scheme/affil.py:41-46 | an author is exactly one name of the stripped name part of some match, with the sanitized brace content as its one affiliation |
| `AffilScheme.AffilRefInstExtract` | src/definition/single_cmd_scheme/affil.py:72-89 | the method computes `AffilRefInst.extract` |
| `AffilScheme.RefInstAuthors` | src/definition/single_cmd_scheme/affil.py:78-86 | the loop gives one author per match, in order |
| `AffilScheme.AffilRefInstAuthors` | src/definition/single_cmd_scheme/affil.py:72-89 | author `i` is match `i` and carries exactly the `\inst{…}` affiliations whose reference its `\affil{…}` lists |
| `AffilScheme.AffilMathExtract` | src/definition/single_cmd_scheme/affil.py:109-138 | the method computes `AffilMath.extract` |
| `AuthorInfoScheme.AuthorInfoMathValidIff` | src/definition/single_cmd_scheme/authorinfo.py:42-46 | `AuthorInfoMath` accepts exactly the `authorinfo` commands holding a math span: two `$` with at least one character and no `$` between them |
| `AuthorInfoScheme.MathSpanFound` | src/definition/single_cmd_scheme/authorinfo.py:46 | a math span starting at a position is what the math-mode pattern matches there |
| `AuthorInfoScheme.AuthorInfoCommands` | src/definition/single_cmd_scheme/authorinfo.py:15-17 | both schemes accept only the commands `twoauthors`, `oneauthor` and `authorinfo` |
| `AuthorInfoScheme.AuthorInfoSingleShares` | src/definition/single_cmd_scheme/authorinfo.py:22-30 | without the argument groups there are no authors; with them author `k` is the `k`-th name of the first group, with the sanitized second group as its one affiliation |
| `AuthorInfoScheme.AuthorInfoMathExtract` | src/definition/single_cmd_scheme/authorinfo.py:48-77 | the method computes `AuthorInfoMath.extract` |
| `AuthorInfoScheme.InfoAuthors` | src/definition/single_cmd_scheme/authorinfo.py:54-65 | the loop over the name parts computes the authors |
| `AuthorInfoScheme.InfoAuthorsFrom` | src/definition/single_cmd_scheme/authorinfo.py:55-65 | an author is exactly a name part with a math reference, named by the part without its `$…$` and citing the ids inside it; at most one per part |
| `AuthorInfoScheme.AuthorInfoMathAuthors` | src/definition/single_cmd_scheme/authorinfo.py:48-77 | without the argument groups nothing is found; with them one author per referenced name part |
| `AuthorNameScheme.ExtSingleAffLoop` | src/definition/single_cmd_scheme/authorname.py:41-56 | the loop computes `ext_single_aff` |
| `AuthorNameScheme.ExtSingleAffShares` | src/definition/single_cmd_scheme/authorname.py:41-56 | nothing when either pattern misses; otherwise author `k` is the `k`-th split name, all sharing the one sanitized affiliation |
| `AuthorNameScheme.ExtSingleAffSame` | src/definition/single_cmd_scheme/authorname.py:49-54 | every author has one affiliation, the same for all |
| `AuthorNameScheme.ExtMultiAffLoop` | src/definition/single_cmd_scheme/authorname.py:9-38 | the loops compute `_ext_multi_aff` |
| `AuthorNameScheme.MultiAuthors` | src/definition/single_cmd_scheme/authorname.py:10-20 | the author loops gather the authors of every `\authorname{…}` |
| `AuthorNameScheme.NameSupAuthors` | src/definition/single_cmd_scheme/authorname.py:13-20 | the inner loop gives one author per `NAME_SUP` match, in order |
| `AuthorNameScheme.MultiAffiliations` | src/definition/single_cmd_scheme/authorname.py:22-36 | the affiliation loops gather the affiliations of every `\affiliation{…}` |
| `AuthorNameScheme.SupParts` | src/definition/single_cmd_scheme/authorname.py:25-36 | the inner loop over the `\sup` pieces gathers their affiliations |
| `AuthorNameScheme.SupAffiliationsFrom` | src/definition/single_cmd_scheme/authorname.py:24-36 | each affiliation comes from one piece holding a `\sup{…}`: its stripped content is the id and the whole affiliation content, minus that one `\sup{…}`, is the name |
| `AuthorNameScheme.AuthorNameAffiliationExtract` | src/definition/single_cmd_scheme/authorname.py:70-80 | the method computes `AuthorNameAffiliation.extract` |
| `AuthorNameScheme.AuthorNameAffiliationPaths` | src/definition/single_cmd_scheme/authorname.py:76-80 | on the single-affiliation path every author has the same one affiliation; otherwise one author per `NAME_SUP` match |
| `AuthorAddressScheme.AuthorAddressExtract` | src/definition/single_cmd_scheme/authoraddress.py:16-17 | the method computes `AuthorAddress.extract` |
| `AuthorAddressScheme.CmdFoundHas` | src/definition/single_cmd_scheme/authoraddress.py:12-14 | a command the case-insensitive content pattern finds is an occurrence of `\name{` in the lower-cased text |
| `AuthorAddressScheme.AuthorAddressShares` | src/definition/single_cmd_scheme/authoraddress.py:16-17 | without `\author{}` or `\address{}` no authors; with both, author `k` is the `k`-th name with the sanitized address as its one affiliation |
| `AuthorAddressScheme.AuthorAddressFoundIsValid` | src/definition/single_cmd_scheme/authoraddress.py:12-17 | authors are found only in content the validator accepts |
| `ArticleAuthorsScheme.ArticleAuthorsExtract` | src/definition/single_cmd_scheme/articleauthors.py:18-25 | the loop over the pairs computes the authors |
| `ArticleAuthorsScheme.ArticleAuthorsPairs` | src/definition/single_cmd_scheme/articleauthors.py:18-25 | one author per pair, in order, with the sanitized `\author{}` content as name and the sanitized `\aff{}` content as its one affiliation |
| `InstituteScheme.InstituteExtract` | src/definition/single_cmd_scheme/institute.py:23-38 | the nested loops compute the authors |
| `InstituteScheme.InstituteShares` | src/definition/single_cmd_scheme/institute.py:30-36 | an author is exactly one of the names before some `\institute{…}`, with that group's sanitized content as its one affiliation |
| `ExtractAuthorAff.ScoreAuthorRatio` | src/extract_author_aff.py:136-149 | the ratio lies in [0, 1] and is 1 exactly when arXiv lists authors and as many are extracted |
| `ExtractAuthorAff.ScoreAuthorRatioOrder` | src/extract_author_aff.py:137-149 | up to the declared count more authors score more; past it more authors score less |
| `ExtractAuthorAff.WeightedMeanBounded` | src/extract_author_aff.py:63-69 | scores in [0, 1] with non-negative weights not all zero have a mean in [0, 1] |
| `ExtractAuthorAff.ThreeWeights` | src/extract_author_aff.py:156-161 | with the weights 0.5, 0.2 and 0.3 the mean is the weighted sum itself |
| `ExtractAuthorAff.BestIndex` | src/extract_author_aff.py:99 | the index reported is that of the earliest candidate most similar to the query |
| `ExtractAuthorAff.MatchName` | src/extract_author_aff.py:83-102 | the declared author is paired with a candidate of the list whose similarity is maximal, and that similarity is the score |
| `ExtractAuthorAff.MatchUnequalCardinality` | src/extract_author_aff.py:72-80 | the loop computes the unequal-cardinality pairing |
| `ExtractAuthorAff.UnequalPairs` | src/extract_author_aff.py:72-80 | one pair per declared author, in order, each with a best-scoring candidate of the whole extracted list |
| `ExtractAuthorAff.FirstEqIndex` | src/extract_author_aff.py:114 | the position `remove` deletes is the first element that compares equal |
| `ExtractAuthorAff.RemoveFirstEq` | src/extract_author_aff.py:114 | `remove` deletes that one element and keeps the rest in order |
| `ExtractAuthorAff.MatchEqualCardinality` | src/extract_author_aff.py:105-116 | the loop with its shrinking pool computes the equal-cardinality pairing |
| `ExtractAuthorAff.EqualPairs` | src/extract_author_aff.py:105-116 | one pair per declared author, in order, each with a best candidate of those still left, the pool staying inside the extracted list |
| `ExtractAuthorAff.RemovesChosen` | src/extract_author_aff.py:111-114 | `remove` takes out the chosen candidate's own position |
| `ExtractAuthorAff.EqualRunClaims` | src/extract_author_aff.py:108-114 | the chosen candidates and those left make up the extracted list as a multiset |
| `ExtractAuthorAff.EqualRunClaimsOnce` | src/extract_author_aff.py:105-116 | with no duplicates in the extracted list, no extracted author is claimed twice |
| `ExtractAuthorAff.GetAuthorMatchingsByName` | src/extract_author_aff.py:119-128 | the method computes the pairing, equal-cardinality exactly when the lists are equally long |
| `ExtractAuthorAff.MatchingsPairs` | src/extract_author_aff.py:119-128 | either way, one pair per declared author, in order, with an extracted author and its similarity as score |
| `ExtractAuthorAff.CountWithAffiliations` | src/extract_author_aff.py:155 | the count of authors with an affiliation is at most the number of authors |
| `ExtractAuthorAff.ScoreExtData` | src/extract_author_aff.py:152-161 | the method computes the score |
| `ExtractAuthorAff.ScoreExtBounded` | src/extract_author_aff.py:131-161 | a score exists (no division by zero) exactly when both lists are non-empty, and lies in [0, 1] when the similarity does |
| `ExtractAuthorAff.IdentifyValidSchemes` | src/extract_author_aff.py:164-171 | a validator that raises ends the loop with the raise; otherwise the valid schemes are exactly those whose validator returns true, in catalogue order |
| `ExtractAuthorAff.ScoreEach` | src/extract_author_aff.py:191-197 | the loop over the valid schemes computes the results |
| `ExtractAuthorAff.ScoreAllResults` | src/extract_author_aff.py:189-199 | the loop raises exactly when some scheme's extractor raises or some scheme extracts authors while arXiv lists none; otherwise one result per scheme with a non-empty extraction, carrying its name, authors and score |
| `ExtractAuthorAff.RunSchemesRaises` | src/extract_author_aff.py:164-197 | validating every scheme and then running the accepting ones raises exactly when a validator raises, an accepting scheme's extractor raises, or an accepting scheme finds authors arXiv does not list |
| `ExtractAuthorAff.SingleCmdExtract` | src/extract_author_aff.py:174-199 | the method computes `_single_cmd_ext`, raising where a validator, an extractor or scoring raises |
| `ExtractAuthorAff.SingleCmdResults` | src/extract_author_aff.py:174-199 | no results for an empty command name or content; otherwise it raises exactly when the scheme dispatch does, and each result comes from an accepting scheme with a non-empty extraction |
| `ExtractAuthorAff.BuildWrappedSingleCommand` | src/extract_author_aff.py:24-29 | one `\author{…}` command around the space-joined sanitized commands, with the same document classes |
| `ExtractAuthorAff.WrappedIsAuthor` | src/extract_author_aff.py:24-29 | the wrapped command is always read as an `author` command |
| `ExtractAuthorAff.MultiCmdExtract` | src/extract_author_aff.py:42-60 | the method computes `_multi_cmd_ext`, raising where a validator, an extractor or scoring raises |
| `ExtractAuthorAff.MultiCmdWraps` | src/extract_author_aff.py:42-60 | the type is `wrapped_multi` exactly when every multi-command validator returns false, and then the results are the single-command ones on the wrapped command; otherwise it raises exactly when the multi-command dispatch does |
| `ExtractAuthorAff.RunSingleElementWrites` | src/extract_author_aff.py:202-229 | a file is written only with metadata, no earlier extraction and at least one command; it is non-empty and typed `single` exactly for one command |
| `ExtractAuthorAff.RunSingleElementRaises` | src/extract_author_aff.py:164-222 | an element is abandoned unwritten only past the guards; with one command exactly when it has a name and a content and a validator raises, an accepting extractor raises or an accepting scheme finds authors arXiv does not list |
| `ExtractAuthorAff.RunMultiElementRaises` | src/extract_author_aff.py:42-222 | with several commands the element is abandoned exactly when the multi-command dispatch raises, or, when every multi-command validator returns false, when the single-command dispatch raises on the wrapped command |
| `MatchData.ProcessRorOrgsToDict` | src/match_data.py:88-94 | the loop builds the id-to-organisation dictionary |
| `MatchData.OrgsToDictLast` | src/match_data.py:88-94 | the keys are exactly the organisations' ids, and a shared id maps to the last organisation with it |
| `MatchData.ProcessRorOrgs` | src/match_data.py:247-256 | the nested loops build the list of (id, processed name) pairs |
| `MatchData.RorOrgsEntries` | src/match_data.py:247-256 | a pair is listed exactly when it is an organisation's id with the non-empty processed form of one of its names |
| `MatchData.GetBestMatch` | src/match_data.py:97-110 | the loop with its running best computes the best match |
| `MatchData.BestMatchIsFirstMax` | src/match_data.py:97-110 | no candidates give `("", -1.0, -1)`; otherwise the earliest candidate of highest ratio, with that ratio and its own index |
| `MatchData.PyAt` | src/match_data.py:185 | Python indexing, negative indices included, defined exactly on `-len <= i < len` |
| `MatchData.MatchedAffiliationChoice` | src/match_data.py:171-185 | the result is keyed by the affiliation as extracted; with candidates it takes the organisation of the earliest best-reranked one and its ratio; with none the index `-1` picks the last pair, raising only without pairs |
| `MatchData.MatchAffiliations` | src/match_data.py:188-203 | the method computes the dictionary of resolved affiliations |
| `MatchData.AffsMapFrom` | src/match_data.py:194-201 | every key comes from some result with that result's match, and every result's key is present |
| `MatchData.MatchAffsEntries` | src/match_data.py:188-203 | it raises exactly when some resolution raises; otherwise one entry per distinct affiliation, holding its resolution |
| `MatchData.AffiliationMatches` | src/match_data.py:126-136 | the inner loop lists the entries of the affiliations whose match is not falsy |
| `MatchData.MatchAuthors` | src/match_data.py:113-143 | the method computes the records or the raise |
| `MatchData.MatchedAuthorsRaise` | src/match_data.py:113-143 | it raises exactly when a declared author has no extracted author to pair with, or a paired author has an affiliation with no key |
| `MatchData.MatchedAuthorsRecords` | src/match_data.py:116-141 | record `k` pairs declared author `k` with its matched extracted author and the name score, listing in order the entries of that author's affiliations with a non-falsy match |
| `MatchData.MatchedAuthorsCovered` | src/match_data.py:126-130 | when every affiliation has a key, it raises only when a declared author has nobody to pair with |
| `MatchData.FirstMaxIndex` | src/match_data.py:206-215 | the running best ends at a valid index |
| `MatchData.GetBestExtraction` | src/match_data.py:206-215 | the method computes the best extraction |
| `MatchData.BestExtractionIsFirstMax` | src/match_data.py:206-215 | no extractions raise; otherwise the first extraction of highest score, later ties not replacing it |
| `MatchData.PaperAffiliationsOf` | src/match_data.py:218-227 | an affiliation is collected exactly when some author of the best extraction has it |
| `MatchData.RunSingleElementGuards` | src/match_data.py:146-168 | a paper is matched only with metadata, a non-empty extraction list and no matched file, with one record per declared author; with every collected affiliation keyed it raises only with declared and no extracted authors |
| `RorData.LastPieceShape` | src/definition/data/RorDataset.py:19 | the last piece of a split on one character is the longest end of the text free of it |
| `RorData.LastFreeUnique` | src/definition/data/RorDataset.py:19 | only one end of a text has that shape, the part after its last occurrence of the character |
| `RorData.RorIdOfUrl` | src/definition/data/RorDataset.py:16-19 | `<prefix>/<id>` gives `<id>`, with or without a trailing `/` |
| `RorData.GetRorIdShape` | src/definition/data/RorDataset.py:16-19 | the id never holds a `/` and ends the URL once trailing `/`s are dropped |
| `RorData.RorIdExamples` | src/definition/data/RorDataset.py:16-19 | `https://ror.org/02mhbdp94` gives `02mhbdp94`, and the placeholder `https://ror.org` gives `ror.org` |
| `RorData.OrgEq` | src/definition/data/RorDataset.py:22-29 | an organisation equals exactly the other values that are organisations with the same id |
| `RorData.OrgEqIsEquivalence` | src/definition/data/RorDataset.py:22-32 | equality is reflexive, symmetric and transitive, ignores names and locations, and equal organisations hash alike |
| `RorDownload.GetOrgNames` | src/ror_dl.py:97-107 | the loop computes the kept names |
| `RorDownload.OrgNamesKept` | src/ror_dl.py:97-107 | a name is kept exactly when it is the value of some entry and longer than four characters; no `names` key gives none |
| `RorDownload.GetOrgLocation` | src/ror_dl.py:110-119 | the loop computes the locations |
| `RorDownload.OrgLocationsEach` | src/ror_dl.py:110-119 | one location per entry, in order, a missing `geonames_details`, `name` or `country_name` giving `""` |
| `RorDownload.MinimizeDataset` | src/ror_dl.py:122-136 | the loop builds the placeholder followed by one organisation per record |
| `RorDownload.MinimizedLayout` | src/ror_dl.py:124-134 | the placeholder comes first, with no locations, one name and the id `ror.org`; then one organisation per record, in order, with the record's id |
| `RorDownload.RemoveSuffix` | src/ror_dl.py:159 | the result plus the suffix is the text when it ends with a non-empty suffix; otherwise the text is unchanged |
| `RorDownload.DatasetFileNameOf` | src/ror_dl.py:159-160 | `<base>.zip` holds `<base>_schema_v2.json`; a name without `.zip` keeps it whole |
| `Download.RFindLast` | src/download.py:240 | `rfind` of one character gives its last position |
| `Download.ArxivIdVersioned` | src/download.py:239-243 | `http://arxiv.org/abs/<id>v<n>` gives the id `<id>` and the version `v<n>` |
| `Download.ArxivIdUnversioned` | src/download.py:239-243 | an abstract URL without a version finds the `v` of `arxiv`: the id becomes `http://arxi` and the version the rest of the URL |
| `Download.ArxivIdNoV` | src/download.py:239-243 | a text with no `v` gets the version `v1` and loses its last character, since `[:-1]` is taken |
| `Download.ReplaceMonthAbbrTokens` | src/download.py:129-137 | it raises exactly when there is no known abbreviation as second token; otherwise only that token is replaced by its month number |
| `Download.ReplaceInSecond` | src/download.py:135-137 | the day before the month token and everything after it stay as they are |
| `Download.ParseDate` | src/download.py:152 | a parsed date is a valid calendar date and time |
| `Download.ParseDateText` | src/download.py:152 | a text of digit fields parses exactly when the fields are in range and make a date |
| `Download.Decimal` | src/download.py:153 | the digits read back as the number |
| `Download.Pad2` | src/download.py:153 | two zero-padded digits that read back as the number |
| `Download.FormatIsoFields` | src/download.py:153 | for a four-digit year the ISO text has twenty characters whose fixed-position fields read back as the date and time |
| `Download.ParseRenderDate` | src/download.py:149-153 | parsing a rendered date with a four-digit year gives the date back |
| `Download.KaggleVersionDataOf` | src/download.py:139-154 | a first version created at `<day>, <d> <Mon> <rest>` gives the latest version and the date parsed from `<d> <number> <rest>` |
| `Download.KaggleVersionDataDefault` | src/download.py:140-151 | without `versions` the update date, which holds no space, makes the month replacement raise |
| `Download.KaggleVersionExample` | src/download.py:148-150 | "Mon, 2 Apr 2007 19:18:42 GMT" is published on "2007-04-02T19:18:42Z" |
| `Download.GetKaggleAuthorList` | src/download.py:157-177 | the loop computes the author list or the raise |
| `Download.KaggleAuthorsOf` | src/download.py:157-177 | it raises exactly when an entry is empty; otherwise author `k` is given names, keyname and suffix joined by single spaces, with the elements from index 3 on as affiliations |
| `Download.StrContainsDigitChar` | src/download.py:246-251 | true exactly when some character is a digit |
| `Download.GetCategories` | src/download.py:254-285 | the method computes the categories |
| `Download.CategoriesKept` | src/download.py:254-285 | with tags, exactly the terms with no `;`, one `.` and no digit are kept, in order; without tags only the primary category |
| `Download.CategoryExample` | src/download.py:263-283 | `cs.LG` is kept |
| `Download.NonCategoryExamples` | src/download.py:271-281 | an ACM class list, an MSC code and a bare archive name are dropped |
| `Download.ProcessSingleMemberAccepts` | src/download.py:31-48 | a member is taken exactly when it is not a rendering, is named the id or its digits, and could be renamed |
| `Download.DigitsNotRendered` | src/download.py:32-39 | a name made of digits is never taken for a rendering |
| `Download.OldStyleIdMember` | src/download.py:37-39 | for an old-style id `<archive>/<number>` the member named by the number is taken |
| `ExportStats.IncSingle` | src/scripts/export_stats.py:35-39 | the key gains `by_value`, starting from nothing when absent; the keys grow by that key only and no other count changes |
| `ExportStats.IncDictCounterIter` | src/scripts/export_stats.py:42-44 | the counter after the loop is the counter with every key of the collection added in turn |
| `ExportStats.IncAllCounts` | src/scripts/export_stats.py:42-44 | a key is counted exactly when it was counted before or occurs in the collection, and it rises by `by_value` once per occurrence |
| `ExportStats.AddScore` | src/scripts/export_stats.py:72-76 | the score is appended to the scheme's list, which starts as a one-element list when the scheme is new; no other list changes |
| `ExportStats.ExtStats.constructor` | src/scripts/export_stats.py:54-61 | all counters start at 0 and every list and dictionary empty |
| `ExportStats.ExtStats.IncExtTypes` | src/scripts/export_stats.py:63-64 | the extraction type's count rises by one |
| `ExportStats.ExtStats.IncBestSchemes` | src/scripts/export_stats.py:66-67 | the best scheme's count rises by one |
| `ExportStats.ExtStats.IncSchemes` | src/scripts/export_stats.py:69-70 | the scheme's count rises by one |
| `ExportStats.ExtStats.AddScoreToScheme` | src/scripts/export_stats.py:72-76 | the score dictionary becomes the old one with the score appended to the scheme's list |
| `ExportStats.CmdStats.constructor` | src/scripts/export_stats.py:80-84 | no commands counted and every dictionary empty |
| `ExportStats.CmdStats.IncDocClasses` | src/scripts/export_stats.py:86-87 | each document class is counted once per occurrence |
| `ExportStats.CmdStats.IncCmdNames` | src/scripts/export_stats.py:89-90 | each command name is counted once per occurrence |
| `ExportStats.CmdStats.IncCmdCombinations` | src/scripts/export_stats.py:92-93 | the combination's count rises by one |
| `ExportStats.FileStats.constructor` | src/scripts/export_stats.py:97-102 | every counter starts at 0 |
| `ExportStats.FileStats.GetFunnelNumbers` | src/scripts/export_stats.py:104-111 | five stages starting at the total, each losing exactly the next failure counter; with counters that are not negative the stages never grow, and none is negative when the failures do not exceed the total |
| `ExportStats.FilterAuthors` | src/scripts/export_stats.py:510-523 | the author loop keeps exactly the authors the cutoff filter keeps, in order |
| `ExportStats.FilterByCutoff` | src/scripts/export_stats.py:503-527 | the loop over the papers yields the cutoff-filtered papers |
| `ExportStats.FilteredAuthorsExactly` | src/scripts/export_stats.py:510-523 | an author survives exactly when scoring at least 70 and keeping an affiliation, and then keeps exactly the affiliations scoring at least 70 |
| `ExportStats.CutoffSurvivors` | src/scripts/export_stats.py:503-527 | the output is exactly the papers with matched data, in order, each with its authors after the cutoff: papers without matched data are dropped and no others; every surviving author and each of their affiliations scores at least 70, and no author is left without affiliations |
| `ExportStats.CutoffKeepsMatched` | src/scripts/export_stats.py:503-527 | the `k`-th paper kept is the `k`-th paper with matched data, holding that paper's authors after the cutoff |
| `ExportStats.SurvivorsClearCutoff` | src/scripts/export_stats.py:510-525 | every surviving author scores at least 70 and keeps an affiliation, and each affiliation kept scores at least 70 |
| `ExportStats.CutoffLength` | src/scripts/export_stats.py:503-527 | no paper is added, and none is dropped when every paper has matched data |
| `ExportStats.AffiliationCutoffIsNameCutoff` | src/scripts/export_stats.py:516-518 | an affiliation scoring 60 clears the affiliation cutoff of 50 and is still dropped |
| `ExportStats.GetBestExtraction` | src/scripts/export_stats.py:530-537 | the first extraction of highest score (a later one must score strictly higher to replace it); none when there are no extractions |
| `ExportStats.TruncHalf` | src/scripts/export_stats.py:743 | half the difference truncated toward zero: twice it is within one of the difference, on the same side of zero |
| `ExportStats.GetFunnelLevelCoords` | src/scripts/export_stats.py:727-763 | the coordinates the loop builds are the funnel bands: level 0, then a transition and a level per further number |
| `ExportStats.FunnelSpan` | src/scripts/export_stats.py:727-763 | n numbers give 2n - 1 bands, from 2n + (n - 1) down to 0 |
| `ExportStats.FunnelBandsJoin` | src/scripts/export_stats.py:729-739 | each band starts where the one above ends; levels are two units tall and transitions one |
| `ExportStats.FunnelTransitions` | src/scripts/export_stats.py:744-754 | a transition band joins the edges of the level above to those of the level below |
| `ExportStats.BandY` | src/scripts/export_stats.py:729-739 | the top and bottom of each band, three units lower per level |
| `ExportStats.TransitionEdges` | src/scripts/export_stats.py:741-754 | the transition into level i runs from the edges of level i - 1 to those of level i |
| `ExportStats.LevelWidth` | src/scripts/export_stats.py:741-761 | each level is centred on the first: its edges add up to the first number, its width is its number up to one unit of truncation per level, and exactly its number when every drop is even |
| `ExportStats.CountAuthorOrgs` | src/scripts/export_stats.py:469-476 | one author's affiliations each count their organisation once |
| `ExportStats.GetRorOrgOcc` | src/scripts/export_stats.py:466-478 | the loop's dictionary is the occurrence count of the matched organisations |
| `ExportStats.RorOrgOccCounts` | src/scripts/export_stats.py:466-478 | an organisation is counted exactly when some affiliation of some author of some paper matched it, and its count is the number of such affiliations |
| `Difficulty.GetCmdDepth` | src/scripts/difficulty.py:16-26 | the loop returns the depth: the highest running level of the braces |
| `Difficulty.DepthIsMaxLevel` | src/scripts/difficulty.py:16-26 | the depth is at least 0, no prefix runs deeper, and some prefix reaches it |
| `Difficulty.BraceFreeDepth` | src/scripts/difficulty.py:17-26 | text without an opening brace has depth 0 |
| `Difficulty.DepthAtMostOpenings` | src/scripts/difficulty.py:18-24 | the depth never exceeds the number of opening braces |
| `Difficulty.OnlyBracesCount` | src/scripts/difficulty.py:18-24 | dropping every character other than a brace keeps level and depth |
| `Difficulty.ClosingBrace` | src/scripts/difficulty.py:18-24 | a closing brace lowers the level and never raises the depth, so `}{` has depth 0 |
| `Difficulty.DepthExample` | src/scripts/difficulty.py:16-26 | `{a{b}c}` has depth 2 |

## Left out

- Fuzzy similarity: rapidfuzz's `fuzz.ratio`, `partial_ratio`, `Indel.normalized_similarity`, `process.extract`/`extractOne` and `utils.default_process` are foreign float code; they are function parameters into `real`, and only their score range is assumed where a proof needs it.
- Unicode: `unicodedata.normalize("NFD", …)` in `_pre_process_string` is a parameter; `str.lower` is modelled on ASCII letters only, and `str.isdigit` on the ASCII digits, although Python accepts other Unicode digits too.
- `uuid.uuid1` in `rrauthor.py` is nondeterministic and is a parameter giving fresh ids.
- The `regex` engine: every pattern that needs recursion, lookbehind, lazy captures, `REVERSE` or overlapped matching (all but the balanced-brace matcher, the separator splitter, the command-content matchers and the math-mode span) is a parameter returning its matches; what the model proves holds for any such matcher.
- `get_cmd_content` and `join_multi_cmd_occurrences` (`cmd_util.py`) are parameters: the first is a regex search, and the second rewrites the text until no match is left, so its termination depends on the replacement function it is given.
- `_unwrap_fonts_in_text`, `_unwrap_fonts_in_cmds` and `_unwrap_cmds` (`latex.py`) are regex rewrite loops over unbounded nesting; `sanitize_latex_cmd` takes them as parameters and the model fixes only the order of its steps.
- The multi-command scheme family has no implementation among these sources; it is a list of name, validator and extractor values that may be empty.
- The scheme catalogue (`__subclasses__` discovery) is a fixed list given as a parameter.
- Scores are `real`, not IEEE doubles; rounding of `fuzz` scores and of the weighted mean is not modelled.
- `ExportStats.TruncHalf`: `int(d / 2)` divides as a float, so for differences beyond 2^53 the source loses precision; the model halves the exact integer.
- `Download.ParseDate`: `strptime` also accepts runs of whitespace between fields, other spellings of the zone and years below 1000 on some C libraries; the model accepts single spaces, `UTC` or `GMT` in any case and four-digit years.
- `_get_categories` reads the `term` of each category tag with bs4; the model starts from the list of terms, so a tag without `term` (a `KeyError` in the source) is not represented.
- `_get_author_list`, `_get_optional_tag`, `_get_paper_metadata` and `run_api` (`download.py`) read bs4 XML entries; `_get_kaggle_metadata` and `run_kaggle` parse JSON lines from a file. Parsing and I/O are not part of this model; the string helpers they call are.
- The tar and zip handling (`_tar_filter_sanitize`, `_process_tar_members`, `_extract_tar`, `_download_src_tar`, `download_paper` in `download.py`; the release download, extraction and cleanup in `ror_dl.py`) is archive and network I/O; only the member-name checks of `_process_single_member` and the dataset file name are modelled.
- `_get_matched_affiliation_infos`, `_get_matched_author_infos`, `_get_matched_paper_data` and `_resolve_ror_id` (`match_data.py:22-85`) rebuild the stored match files with resolved organisations; they are JSON reshaping followed by file writes.
- `_get_extracted_affiliations` (`match_data.py`) unions per-paper sets across a thread pool; the per-paper set is modelled, the threading and set order are not.
- `MatchStats`, `Stats` and the metadata and command fields of `CombinedData` (`export_stats.py`) are containers that only the plots read; plotting, the numpy/scipy statistics and the cost models are floating-point output.
- Every `run`, `main` and `_run_single_element` driver: file reading and writing, logging, progress bars and process pools. The guards of `_run_single_element` in `match_data.py` and `extract_author_aff.py` are modelled on their inputs.

## Findings

| source | as written | input that shows it | evidently intended | confidence | as-written member | corrected member |
|---|---|---|---|---|---|---|
| src/definition/latex.py:181-183 | the escape test reads `line[comment_index - 1]` and `line[comment_index - 2]`, which wrap to the end of the line for a sign at index 0 or 1 | the last line `\%a\` without a line break: the escaped sign at 1 is reported as a comment, because `line[-1]` is the trailing backslash | a `%` at index 0 is a comment, and one at index 1 is escaped exactly when index 0 holds a backslash | not executed | `Latex.CommentIndexWrapsAround` | `Latex.FindCommentIndex` |
