# text-diff: a Dafny model of the LCS diff and its three renderers

This project models the core of the PHP `text-diff` library:

- The `Diff` class of `src/Diff.php`. It holds two strings and the comparison mode (lines or characters). `toArray` returns the edit script, a list of `(unit, status)` pairs where the status is UNMODIFIED (0), DELETED (1) or INSERTED (2). `dispose` makes every later `toArray` throw error 66901.
- The three renderers that turn the script into text:
  - `PlainText` writes a two-character prefix per entry.
  - `HTML` wraps each entry in `span`/`del`/`ins` inside a `div` container.
  - `HTMLTable` groups runs of entries into two-column table rows.

Modules, one per part of the program:

| module | file | models |
|---|---|---|
| `Edits` | edits.dfy | The status, the entry, and the projections of a script onto each input. |
| `Lcs` | lcs.dfy | `computeTable` and `generatePartialDiff`. |
| `Assembly` | assembly.dfy | The prefix and suffix trim loops of `toArray`, and the final assembly. |
| `Units` | units.dfy | Splitting a string into bytes or lines. |
| `Session` | session.dfy | The `Diff` object and its lifecycle. |
| `Markup` | markup.dfy | `htmlspecialchars` and the element syntax. |
| `PlainTextRenderer` | plaintext.dfy | The `PlainText` renderer. |
| `HtmlRenderer` | html.dfy | The `HTML` renderer. |
| `HtmlTableRenderer` | htmltable.dfy | The `HTMLTable` renderer. |

## How the script is specified

Several specifications do the work:

- `Lcs.LcsLength` is the longest-common-subsequence recurrence. It is tied to an independent definition: `IsSubsequence` gives an upper bound, and a walk achieves that bound.
- `Lcs.Walk` is the backtracking order of `generatePartialDiff`: match first, then insert when the table value does not drop, else delete.
- `Assembly.Script(s1, s2)` is the kept shared prefix, then the walk over the trimmed window, then the kept shared suffix. `Compare` (the body of `toArray`) is proved to return exactly `Script`.
- About `Script`, the model proves:
  - Dropping the inserted entries gives sequence 1, and dropping the deleted entries gives sequence 2.
  - The kept entries form a longest common subsequence of the two whole inputs, not only of the trimmed window: trimming the shared prefix and suffix loses nothing.
  - Identical inputs give only kept entries.
  - Two different single units give a deletion followed by an insertion.

Each renderer's `render` is a loop proved equal to a pure fold:

- `PlainTextRenderer.Text` for PlainText;
- `HtmlRenderer.Page(Body(...))` for HTML;
- `HtmlTableRenderer.Table` for HTMLTable.

The text and HTML folds each have a reading function and a round-trip lemma: `PlainTextRenderer.ReadText` with `TextRoundTrip`, and `HtmlRenderer.ReadBody` with `BodyRoundTrip`. Nothing reads the table markup back. Its partner is `HtmlTableRenderer.Columns`, the cells row by row, and `TableShowsInputs` proves what the two columns show.

In the HTML table, the rows partition the script. The left column shows exactly the units of sequence 1, and the right column shows exactly the units of sequence 2.

## Model

| member | source | states |
|---|---|---|
| Session.Code | src/Diff.php:33-37 | The status codes 0, 1 and 2 correspond one to one to UNMODIFIED, DELETED and INSERTED. |
| Session.Diff.constructor | src/Diff.php:42-73 | A new diff holds the two strings, compares lines, is not disposed and has empty unit sequences. |
| Session.Diff.CompareStrings | src/Diff.php:102-107 | compareStrings returns a fresh, undisposed diff of the two strings in the requested mode. |
| Session.Diff.SetCompareCharacters | src/Diff.php:82-87 | Only the comparison mode changes, and it changes to the argument. |
| Session.Diff.ToArray | src/Diff.php:171-243 | A disposed diff fails with code 66901 and leaves the sequences alone. Otherwise the result is the script of the two strings' units, and both unit sequences are reset to empty. |
| Session.Diff.Dispose | src/Diff.php:393-401 | Afterwards the diff is disposed and both strings are empty. |
| Session.ToArrayTwice | src/Diff.php:173-240 | Two consecutive toArray calls return the same result. Both succeed exactly when the diff is not disposed. A failure carries code 66901. |
| Session.ToArrayAfterDispose | tests/testsuites/Core/ParseTests.php:44-53 | toArray after dispose fails with ERROR_DIFF_ALREADY_DISPOSED, whatever the strings. |
| Session.ScriptOfTwoLines | tests/testsuites/Core/ParseTests.php:33-42 | In line mode, two different one-line strings give the first line DELETED and then the second INSERTED. |
| Session.ToArrayOfTwoLines | tests/testsuites/Core/ParseTests.php:33-42 | toArray on two different one-line strings returns exactly [(string1, DELETED), (string2, INSERTED)]. |
| Session.ToArrayOfIdentical | tests/testsuites/Core/ParseTests.php:13-21 | Identical strings give one UNMODIFIED entry per unit, in either mode. |
| Assembly.SkipPrefix | src/Diff.php:200-204 | The prefix loop stops at the length of the longest shared prefix. The two prefixes before `start` are equal. |
| Assembly.SkipSuffix | src/Diff.php:206-211 | The suffix loop leaves end1 and end2 just before the longest shared suffix that does not reach into the prefix. start <= end+1 holds on both sides, and the two tails are equal. |
| Assembly.PrefixLengthIsShared | src/Diff.php:200-204 | PrefixLength is shared by both sequences and maximal: the next units differ or one sequence ends. |
| Assembly.PrefixLengthUnique | src/Diff.php:200-204 | Any shared prefix that cannot be extended has exactly the length PrefixLength. |
| Assembly.SuffixLengthUnique | src/Diff.php:206-211 | Any shared suffix that stays clear of the prefix and cannot be extended has exactly the length SuffixLength. |
| Assembly.SuffixLengthIsShared | src/Diff.php:206-211 | SuffixLength is shared by both sequences, does not overlap the prefix, and cannot be extended. |
| Assembly.Assemble | src/Diff.php:220-237 | The assembled script is the kept prefix, then the partial diff reversed (array_pop order), then the tail of sequence 1 kept. |
| Assembly.Compare | src/Diff.php:200-237 | The trim, table, walk and assembly steps of toArray together return exactly Script(units1, units2). |
| Assembly.ScriptOfWindow | src/Diff.php:220-237 | The prefix, the walk over the window [start, end1] x [start, end2], and the suffix, stitched together, form Script. |
| Assembly.ScriptProjects | src/Diff.php:89-95 | Dropping the INSERTED entries of the script reproduces sequence 1. Dropping the DELETED entries reproduces sequence 2. |
| Assembly.ScriptLength | src/Diff.php:220-237 | The script has \|s1\| + \|s2\| - (number of UNMODIFIED entries) entries. |
| Assembly.ScriptOfIdentical | src/Diff.php:200-237 | Identical sequences give only UNMODIFIED entries, one per unit, in order. |
| Assembly.ScriptOfTwoUnits | src/Diff.php:317-330 | Two different single units give [(x, DELETED), (y, INSERTED)]: insert is chosen first while walking back, and the reversal puts it last. |
| Assembly.ScriptIsLongest | src/Diff.php:200-237 | The UNMODIFIED units of the script are a common subsequence of both whole inputs, and as long as LcsLength of the whole inputs: skipping the shared prefix and suffix before filling the table still yields a longest common subsequence. |
| Assembly.ScriptCommonLength | src/Diff.php:220-237 | The script keeps the shared prefix, LcsLength of the window between start and end1/end2, and the shared suffix. |
| Assembly.TrimmedLcsLength | src/Diff.php:200-211 | LcsLength of the whole inputs is the length of the skipped prefix and suffix plus LcsLength of the window. |
| Lcs.LcsLengthSharedPrefix | src/Diff.php:200-204 | A prefix shared by both sequences adds its length to LcsLength. |
| Lcs.LcsLengthSharedSuffix | src/Diff.php:206-211 | A suffix shared by both sequences adds its length to LcsLength. |
| Lcs.LcsLengthIsUpperBound | src/Diff.php:245-247 | No common subsequence of the two sequences is longer than LcsLength. |
| Lcs.LcsLengthIsAchieved | src/Diff.php:245-247 | The UNMODIFIED units of the walk form a common subsequence of length LcsLength, so LcsLength is the longest. |
| Lcs.ComputeTable | src/Diff.php:254-285 | The table has length1+1 rows of length2+1 entries. Every entry table[i][j] is LcsFrom(i, j). |
| Lcs.LcsFromIsLcsLength | src/Diff.php:266-281 | The table recurrence at (i, j) equals the LCS length of the window prefixes of lengths i and j. |
| Lcs.TableBounds | src/Diff.php:258-281 | table[i][j] <= min(i, j), and row 0 and column 0 are all zero. |
| Lcs.GeneratePartialDiff | src/Diff.php:294-335 | The walk back from the bottom-right corner terminates, and its output reversed is the walk WalkFrom over the table. |
| Lcs.WalkBackMatch | src/Diff.php:307-316 | A match step moves diagonally and appends an UNMODIFIED entry, keeping the walk invariant. |
| Lcs.WalkBackInsert | src/Diff.php:317-324 | An insert step (the table value does not drop leftwards) moves left and appends an INSERTED entry, keeping the walk invariant. |
| Lcs.WalkBackDelete | src/Diff.php:325-330 | The DELETED branch is reached only with index1 > 0, and it keeps the walk invariant. |
| Lcs.WalkFromIsWalk | src/Diff.php:294-335 | The walk over the table equals Walk on the window slices, which is defined on LcsLength alone. |
| Lcs.WalkProjects | src/Diff.php:294-335 | Dropping INSERTED from a walk gives the first window, and dropping DELETED gives the second. |
| Lcs.WalkCommonLength | src/Diff.php:307-316 | A walk has exactly table[len1][len2] (= LcsLength) UNMODIFIED entries. |
| Lcs.WalkLength | src/Diff.php:300-330 | A walk has length1 + length2 - table[len1][len2] entries. |
| Units.Characters | src/Diff.php:187-190 | Character mode gives one one-byte unit per byte, in order. |
| Units.CharactersConcat | src/Diff.php:187-190 | Concatenating the character units gives back the string. |
| Units.SplitLines | src/Diff.php:194-197 | Line splitting gives at least one line, and no line contains a line break. |
| Units.SplitLinesJoin | src/Diff.php:194-197 | Joining the lines with LF gives the string with every line break written as LF. |
| Units.SplitLinesRoundTrip | src/Diff.php:194-197 | On text whose only breaks are LF, joining the lines with LF gives back the string. |
| Units.SplitLinesOfOneLine | src/Diff.php:194-197 | A string without line breaks is one line. |
| Markup.EscapeChar | src/Diff/Renderer/HTML.php:58 | A character is left alone exactly when it is not special. A special one (& " ' < >) becomes an entity `&...;` that holds no quote, `<` or `>`. |
| Markup.EscapeHasNoDelimiter | src/Diff/Renderer/HTML.php:58 | Escaped text holds no quote, `<` or `>`, so it cannot close a tag or an attribute. |
| Markup.EscapeRoundTrip | src/Diff/Renderer/HTML.php:58 | Under the modelled escape (text of valid UTF-8), unescaping escaped text gives back the original. |
| Markup.EscapeUnchanged | src/Diff/Renderer/HTMLTable.php:195 | Text without special characters is unchanged by escaping. |
| PlainTextRenderer.Prefix | src/Diff/Renderer/PlainText.php:37-42 | The prefix is two characters: a space, '-' or '+' exactly for UNMODIFIED, DELETED or INSERTED, then a space. |
| PlainTextRenderer.PlainText.constructor | src/Diff/Renderer.php:13-16 | A new renderer holds the diff, and the separator is the default "\n". |
| PlainTextRenderer.PlainText.SetSeparator | src/Diff/Renderer/PlainText.php:16-21 | Only the separator changes, and it changes to the argument. |
| PlainTextRenderer.PlainText.Render | src/Diff/Renderer/PlainText.php:28-49 | A disposed diff fails with 66901. Otherwise the result is, for each entry in order, prefix + unit + separator. As with toArray, the diff's unit sequences are cleared afterwards, or left as they were when the diff is disposed. |
| PlainTextRenderer.TextAppend | src/Diff/Renderer/PlainText.php:34-46 | The text of two scripts one after the other is the two texts one after the other. |
| PlainTextRenderer.TextLength | src/Diff/Renderer/PlainText.php:34-46 | The output length is the sum over entries of 2 + \|unit\| + \|separator\|. An empty script gives "". |
| PlainTextRenderer.TextRoundTrip | src/Diff/Renderer/PlainText.php:28-49 | Units free of the separator's first character can be read back from the text: status from the prefix, unit up to the separator. |
| PlainTextRenderer.RenderTwoLines | tests/testsuites/Renderers/StringTests.php:21-27 | With the default separator, two different one-line strings render as "- a\n+ b\n". |
| HtmlRenderer.Html.constructor | src/Diff/Renderer.php:13-16 | A new renderer holds the diff, and the separator is the default `<br>`. |
| HtmlRenderer.Html.SetSeparator | src/Diff/Renderer/HTML.php:21-26 | Only the separator changes, and it changes to the argument. |
| HtmlRenderer.Html.Render | src/Diff/Renderer/HTML.php:38-66 | A disposed diff fails with 66901. Otherwise the container holds, for each entry in order, `<tag>escaped unit</tag>` and then the separator. As with toArray, the diff's unit sequences are cleared afterwards, or left as they were when the diff is disposed. |
| HtmlRenderer.TagRoundTrip | src/Diff/Renderer/HTML.php:48-53 | The tag picked for a status determines the status: span, del and ins are distinct. |
| HtmlRenderer.BodyAppend | src/Diff/Renderer/HTML.php:45-60 | The markup of two scripts one after the other is the two markups one after the other. |
| HtmlRenderer.BodyRoundTrip | src/Diff/Renderer/HTML.php:45-60 | Under the modelled escape (units of valid UTF-8), reading the markup back, tag by tag and unescaping, gives back the script, for any separator. |
| HtmlRenderer.BodyOfReplacement | src/Diff/Renderer/HTML.php:45-60 | A deletion and then an insertion give `<del>x</del>sep<ins>y</ins>sep`. |
| HtmlRenderer.RenderTwoLines | tests/testsuites/Renderers/HTMLTests.php:23-29 | Two different one-line strings render as the container around `<del>a</del><br><ins>b</ins><br>`. |
| HtmlRenderer.PageOfEmpty | src/Diff/Renderer/HTML.php:19 | An empty script gives `<div class="text-diff-container"></div>`. |
| HtmlRenderer.RenderEmpty | src/Diff/Renderer/HTML.php:38-66 | In character mode, rendering the diff of two empty strings gives the empty container. |
| HtmlRenderer.RenderEmptyLines | src/Diff/Renderer/HTML.php:38-66 | In line mode, two empty strings split into one empty line each, so the container holds one empty kept `span` and the separator. |
| HtmlTableRenderer.ResolveTagIsHtmlTag | src/Diff/Renderer/HTMLTable.php:205-214 | resolveTag maps DELETED to del, INSERTED to ins and the rest to span, the same mapping as the HTML renderer. |
| HtmlTableRenderer.RunEndIsRun | src/Diff/Renderer/HTMLTable.php:187-200 | The index getCellContent stops at ends a maximal run: every entry before it has the status, and it is the end or an entry of another status. |
| HtmlTableRenderer.CellEmpty | src/Diff/Renderer/HTMLTable.php:183-203 | A cell is "" exactly when its run is empty. |
| HtmlTableRenderer.RowAt | src/Diff/Renderer/HTMLTable.php:108-131 | Each iteration of the render loop consumes at least one entry and stays within the script. |
| HtmlTableRenderer.RowClasses | src/Diff/Renderer/HTMLTable.php:110-174 | Kept runs give equal cells, both classed unmodified. A deleted run is classed del, beside ins exactly when inserted entries follow and beside empty exactly when none do. Inserted runs alone give empty then ins. |
| HtmlTableRenderer.ColumnsShowInputs | src/Diff/Renderer/HTMLTable.php:103-141 | From any row start, the left cells show the remaining entries without the inserted ones, and the right cells show them without the deleted ones. |
| HtmlTableRenderer.TableShowsInputs | src/Diff/Renderer/HTMLTable.php:103-141 | Down the table, the left column shows exactly the units of sequence 1 and the right column those of sequence 2. |
| HtmlTableRenderer.TableOfReplacement | src/Diff/Renderer/HTMLTable.php:91-144 | A deletion and then an insertion give one row: del cell on the left, ins cell on the right. |
| HtmlTableRenderer.HtmlTable.constructor | src/Diff/Renderer/HTMLTable.php:12-16 | The defaults: separator `<br>`, no indentation, a four-space tab, the platform newline. |
| HtmlTableRenderer.HtmlTable.SetTab | src/Diff/Renderer/HTMLTable.php:32-37 | Only the tab changes, and it changes to the argument. |
| HtmlTableRenderer.HtmlTable.SetSeparator | src/Diff/Renderer/HTMLTable.php:54-59 | Only the separator changes, and it changes to the argument. |
| HtmlTableRenderer.HtmlTable.SetIndentation | src/Diff/Renderer/HTMLTable.php:68-73 | Only the indentation changes, and it changes to the argument. |
| HtmlTableRenderer.HtmlTable.GetCellContent | src/Diff/Renderer/HTMLTable.php:183-203 | The index moves to the end of the maximal run of the status. The cell is `<tag>escaped unit</tag>separator` for each entry of that run. |
| HtmlTableRenderer.HtmlTable.Render | src/Diff/Renderer/HTMLTable.php:91-144 | A disposed diff fails with 66901. Otherwise the array field holds the script, and the result is the indentation, then the container around nl + the rows, then nl. As with toArray, the diff's unit sequences are cleared afterwards, or left as they were when the diff is disposed. |
| HtmlTableRenderer.RenderTwoLines | tests/testsuites/Renderers/HTMLTableTests.php:25-33 | Two different one-line strings give the single-row table of the test: del cell, then ins cell. |

## Left out

- compareFiles (src/Diff.php:119-126) reads files and calls a `compare` method that does not exist. createStyler and the Styler class read the filesystem and build asset URLs. Neither is modelled.
- The getters (getSeparator, getContainer, getTab, getNewlineCharacter, getIndentation) are not modelled. They only return a field.
- The toString, toHTML and toHTMLTable delegators are not modelled. Each builds a renderer and calls render, which is modelled.
- The abstract Renderer base class is not modelled as a class of its own. Its constructor appears as each renderer's constructor.
- DiffException is not modelled as an exception. A thrown exception is the `Failure(code)` case of `Session.Result`, carrying the code.
- Equality: PHP compares units with the loose `==`, so numeric strings such as "1" and "01" compare equal. The model uses exact equality. Under loose equality, the entries kept from sequence 1 could differ textually from sequence 2, and the projection onto sequence 2 would hold only up to that equality.
- Units.SplitLines models `preg_split('/\R/')`. The pattern has no `u` flag, so PCRE matches bytes, and `\R` then matches exactly LF, VT, FF, CR, the byte 0x85 (NEL) and CRLF. The model breaks on exactly that set, one `char` per byte, so it is exact for it. Strings are sequences of bytes here; no UTF-8 decoding is modelled or needed.
- The Unicode-aware splitCharacters/splitLines are not modelled. The tests call them, but src/Diff.php does not define them. Character mode indexes bytes, modelled as one `char` per byte.
- Markup.Escape models `htmlspecialchars` as PHP 8.1 and later apply it with no flags argument, which is how src/Diff/Renderer/HTML.php:58 and src/Diff/Renderer/HTMLTable.php:195 call it. The default flags there are ENT_QUOTES, ENT_SUBSTITUTE and ENT_HTML401. ENT_QUOTES is modelled as a mapping on single characters: & < > " '. ENT_SUBSTITUTE replaces invalid UTF-8, such as a lone byte of a multi-byte character in character mode, by U+FFFD. That is not modelled, so Markup.EscapeRoundTrip and HtmlRenderer.BodyRoundTrip hold only for valid UTF-8 text; for other units the real output loses the original bytes. The source pins no PHP version. Before 8.1 the default is ENT_COMPAT without ENT_SUBSTITUTE: `'` stays as it is instead of becoming `&#039;`, and text with invalid UTF-8 escapes to the empty string. The model does not cover those older defaults. The double-encoding option is not modelled either.
- Session.Diff.SetCompareCharacters and Session.Diff.CompareStrings: the PHP default arguments (`setCompareCharacters(bool $compare=true)`, `compareStrings(..., $compareCharacters=false)`) are dropped, because Dafny has no default parameters; callers pass the flag explicitly.
- PHP_EOL depends on the platform. It is the `eol` parameter of the HTMLTable constructor.
- The memory-release assignments in toArray and dispose are not modelled beyond what callers can see: ToArray resets the unit sequences, and Dispose clears the strings.
- Lcs.GeneratePartialDiff: the walk is stated through the ghost WalkFrom over the table. Its relation to Walk on the window slices is the separate lemma Lcs.WalkFromIsWalk. The counts of kept and total entries are Lcs.WalkCommonLength and Lcs.WalkLength.
- HtmlTableRenderer.HtmlTable.GetCellContent: its contract gives the cell as Cell of the run. The emptiness fact is the separate lemma CellEmpty, and maximality of the run is RunEndIsRun.
- Several functions exist only to state properties and have no counterpart in the program: Markup.Unescape, PlainTextRenderer.ReadText, HtmlRenderer.ReadBody, HtmlTableRenderer.Columns and HtmlTableRenderer.Shown.

## Notes on the source

- In HTMLTable.php, render writes the closing `</table>` right after the last row's newline, with no indentation before it (src/Diff/Renderer/HTMLTable.php:143). The test expects `$indent.'</table>'` (tests/testsuites/Renderers/HTMLTableTests.php:25-33). The two agree because the test leaves the indentation at its default "". The model follows the code.
