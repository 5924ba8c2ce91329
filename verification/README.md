# Hyperscript usage scanner, modelled in Dafny

This project models the usage scanner of the `hyperfixi` Python package
(`packages/hyperfixi-python/hyperfixi/scanner.py`). The scanner reads
template files and finds the hyperscript snippets embedded in them. A
snippet can sit in `_="…"` attributes and their JSX and `data-hs` variants,
in Django `{% hs %}…{% endhs %}` blocks, in `{% hs_attr "…" %}` and
`{% hs_script "…" %}` tags, and in `<script type="text/hyperscript">`
elements. The scanner classifies each snippet into a `FileUsage`: the
commands it uses, the block kinds it uses, and whether it uses positional
expressions. It merges the snippets' usages into one usage per file and
collects the non-empty per-file usages into a map keyed by path.

The project has one module per concern, one file each:

| file | module | what it holds |
|---|---|---|
| `optional.dfy` | `Optional` | `Option` |
| `text.dfy` | `Text` | ASCII character classes, case folding, `str.strip()`, literal search, greedy runs |
| `usage.dfy` | `Usage` | `FileUsage`, `AggregatedUsage`, `__bool__`, `merge` and the merge fold |
| `ordering.dfy` | `Ordering` | Python string order, `sorted()` on a set, both `to_dict` methods |
| `patterns.dfy` | `Patterns` | the pattern catalogue and vocabularies as data |
| `extract.dfy` | `Extract` | one matcher per extraction pattern, `finditer`, `extract_hyperscript`, round trips |
| `words.dfy` | `Words` | the `\b…\b` patterns at one position, and the word-level meaning of each |
| `classify.dfy` | `Classify` | `analyze_script` and its exact characterisation |
| `scanner.dfy` | `Scanner` | configuration, `should_scan`, `scan_content`, `scan_file`, `scan_directory`, `scan_directories` |

Each regular expression is modelled by a function that says whether and
where the pattern matches at a given position. Greedy runs become `Skip`.
Lazy bodies become `First`, the first position where the closing part
matches. `finditer` becomes a left-to-right scan that resumes at the end of
each match (`Extract.Scan`). `search` becomes "matches at some position".
Independently of the regexes, a word-level specification says what each
classification pattern is meant to find. A word is a maximal run of `\w`
characters, compared ignoring case. The lemmas prove that the regex side
and the word side agree.

Regexes and the filesystem are modelled as follows:

- Only ASCII is modelled. `\w` is `[A-Za-z0-9_]`. `\s` and `str.isspace()`
  are the characters 9–13 and 28–32. IGNORECASE and `str.lower()` fold
  `A`–`Z` onto `a`–`z`.
- A directory is the listing `rglob("*")` would produce, or `None` when the
  directory does not exist. Each `Entry` carries its path, whether it is a
  regular file, and its contents. The contents are `None` when reading
  fails. That covers the read errors `scan_file` swallows, but not the
  debug output failures it also swallows (see "## Left out").
- `str(path)` is the path string itself. `Path.suffix` follows the
  Python 3.12 rule: take the name after the last `/`, find its last `.`,
  and that dot starts the suffix unless it is the first or the last
  character of the name.

Where the comments and docstrings of `scanner.py` differ from its code,
the model follows the code:

- The comment at `scanner.py:102` speaks of 21 commands, but the pattern at
  `scanner.py:104-109` has 23 alternatives, including both `remove` and
  `removeClass`.
- The constructor's docstring at `scanner.py:188` lists `.html`, `.htm`,
  `.txt` and `.xml` as the default extensions. The code at
  `scanner.py:192-199` also includes `.jinja` and `.jinja2`.

Other behaviour of the code that the model keeps as written:

- The `repeat` count is any of `\d+`, `:\w+`, `\$\w+` and `[\w.]+`.
- A path found under two roots keeps the later root's usage
  (`Scanner.ScanDirectoriesLastWins`). It is not merged.
- `VALID_COMMANDS` and `VALID_BLOCKS` are never consulted by
  `analyze_script`. For ASCII content the model proves that what it
  reports lies inside them anyway; see "## Left out" for other content.

## Model

| member | source | states |
|---|---|---|
| Usage.Truthy | packages/hyperfixi-python/hyperfixi/scanner.py:36-38 | a usage is falsy exactly when it equals `FileUsage()`: both sets empty and the flag false |
| Usage.Merge | packages/hyperfixi-python/hyperfixi/scanner.py:40-45 | the merged usage includes both operands, and it is truthy iff either operand is |
| Usage.MergeIsLeastUpperBound | packages/hyperfixi-python/hyperfixi/scanner.py:40-45 | any usage that includes both operands includes their merge, so merge adds nothing beyond the two |
| Usage.MergeCommutative | packages/hyperfixi-python/hyperfixi/scanner.py:40-45 | `a.merge(b)` and `b.merge(a)` give the same usage |
| Usage.MergeAssociative | packages/hyperfixi-python/hyperfixi/scanner.py:40-45 | merging is associative |
| Usage.MergeIdempotent | packages/hyperfixi-python/hyperfixi/scanner.py:40-45 | merging a usage with itself changes nothing |
| Usage.MergeEmptyIdentity | packages/hyperfixi-python/hyperfixi/scanner.py:40-45 | merging with `FileUsage()`, on either side, changes nothing |
| Usage.MergeAllIsUnion | packages/hyperfixi-python/hyperfixi/scanner.py:286-291 | folding merge from `FileUsage()` gives the union of the commands, the union of the blocks and the OR of the flags |
| Usage.MergeAll | packages/hyperfixi-python/hyperfixi/scanner.py:286-291 | the merged usage of a file includes every snippet's usage, and it is truthy exactly when some snippet's usage is |
| Usage.MergeAllOrderFree | packages/hyperfixi-python/hyperfixi/scanner.py:286-291 | the fold depends only on which usages occur, not on their order or repetition |
| Usage.MergeAllMembers | packages/hyperfixi-python/hyperfixi/scanner.py:286-291 | a command, block or flag is in the fold exactly when it is in one of the folded usages |
| Ordering.Less | packages/hyperfixi-python/hyperfixi/scanner.py:50-51 | Python's `<` on `str`: code point by code point, a proper prefix first; `Ordering.LessIrreflexive`, `Ordering.LessTransitive` and `Ordering.LessTotal` make it the strict total order `sorted` needs |
| Ordering.LessIrreflexive | packages/hyperfixi-python/hyperfixi/scanner.py:47-53 | the string order that `sorted` uses is irreflexive |
| Ordering.LessTransitive | packages/hyperfixi-python/hyperfixi/scanner.py:47-53 | the string order is transitive |
| Ordering.LessTotal | packages/hyperfixi-python/hyperfixi/scanner.py:47-53 | any two distinct strings are ordered one way or the other |
| Ordering.SortedList | packages/hyperfixi-python/hyperfixi/scanner.py:47-53 | `sorted(s)` is strictly ascending and holds exactly the elements of `s`, each once |
| Ordering.ToDict | packages/hyperfixi-python/hyperfixi/scanner.py:47-53 | `to_dict` lists commands and blocks strictly ascending with exactly the set elements, and keeps the flag |
| Ordering.AggregatedToDict | packages/hyperfixi-python/hyperfixi/scanner.py:65-72 | as `to_dict`, and `file_count` is the number of recorded files |
| Patterns.AlternativesAreValidCommands | packages/hyperfixi-python/hyperfixi/scanner.py:104-109 | every command alternative is a word whose lower-case form is in `VALID_COMMANDS` |
| Patterns.ValidCommandsAreAlternatives | packages/hyperfixi-python/hyperfixi/scanner.py:132-156 | every name in `VALID_COMMANDS` is the lower-case form of some alternative, so each can be detected |
| Patterns.PositionalVocabulary | packages/hyperfixi-python/hyperfixi/scanner.py:127-129 | the positional alternatives are lower-case words |
| Text.Trim | packages/hyperfixi-python/hyperfixi/scanner.py:238 | a stripped snippet is empty or neither starts nor ends with whitespace |
| Text.TrimCutsSpace | packages/hyperfixi-python/hyperfixi/scanner.py:238 | a stripped snippet is the text less a whitespace prefix and a whitespace suffix |
| Extract.First | packages/hyperfixi-python/hyperfixi/scanner.py:89 | a lazy body stops at the first position where the closing part matches, and none earlier matches |
| Extract.AttributeAt | packages/hyperfixi-python/hyperfixi/scanner.py:79-87 | a match is `lead`, an opening quote, a body free of the quotes (non-empty where the pattern says `+`), a closing quote and `trail`, with the body as its group (`AttributeIn`); `Extract.AttributeAtComplete` gives the converse |
| Extract.BlockTagAt | packages/hyperfixi-python/hyperfixi/scanner.py:89 | a match opens with a `{% hs %}` tag, its group runs from there to a `{% endhs %}` tag that ends the match, and no closing tag starts inside the group (`BlockIn`); `Extract.BlockTagAtComplete` gives the converse |
| Extract.StringTagAt | packages/hyperfixi-python/hyperfixi/scanner.py:91-94 | a match is `{%`, the tag name, whitespace, a quote, a non-empty quote-free group, a quote and `%}` (`StringTagIn`); `Extract.StringTagAtComplete` gives the converse |
| Extract.TagOpen | packages/hyperfixi-python/hyperfixi/scanner.py:89-94 | `{%`, optional whitespace and the tag name, reported with the position after the name; `Extract.TagOpenComplete` gives the converse |
| Extract.TagClose | packages/hyperfixi-python/hyperfixi/scanner.py:89-94 | optional whitespace then `%}`, reported with the position after it; `Extract.TagCloseComplete` gives the converse |
| Extract.QuotedArgument | packages/hyperfixi-python/hyperfixi/scanner.py:91-94 | whitespace, a quote, a non-empty quote-free group, a quote and a closing `%}` after the tag name (`QuotedArgumentIn`); `Extract.QuotedArgumentComplete` gives the converse |
| Extract.ScriptAt | packages/hyperfixi-python/hyperfixi/scanner.py:96-99 | a match opens with `<script` (any case), its opening tag ends at the first `>` after it, and its group ends at the first `</script>` (any case), which ends the match (`ScriptIn`); `Extract.ScriptAtComplete` gives the converse |
| Extract.ScriptOpenAt | packages/hyperfixi-python/hyperfixi/scanner.py:96-99 | a recognised opening tag starts with `<script`, ends at the first `>` after it, and holds `type=text/hyperscript` before that `>`; `Extract.ScriptOpenAtComplete` gives the converse |
| Extract.MatchAt | packages/hyperfixi-python/hyperfixi/scanner.py:237 | `pattern.match` for any carrier starts at the given position, lies in the text and has the carrier's layout (`Shaped`); `Extract.MatchAtComplete` gives the converse |
| Extract.AttributeAtComplete | packages/hyperfixi-python/hyperfixi/scanner.py:79-87 | text laid out as an attribute, from the lead to the first closing quote, is matched where it starts |
| Extract.TagOpenComplete | packages/hyperfixi-python/hyperfixi/scanner.py:89-94 | `{%`, whitespace and the tag name are recognised as an opening |
| Extract.TagCloseComplete | packages/hyperfixi-python/hyperfixi/scanner.py:89-94 | whitespace then `%}` is recognised as a closing |
| Extract.BlockTagAtComplete | packages/hyperfixi-python/hyperfixi/scanner.py:89 | `{% hs %}` followed by its first `{% endhs %}` is matched, with the text between as the group |
| Extract.QuotedArgumentComplete | packages/hyperfixi-python/hyperfixi/scanner.py:91-94 | a quoted argument laid out as `QuotedArgumentIn` says is recognised |
| Extract.StringTagAtComplete | packages/hyperfixi-python/hyperfixi/scanner.py:91-94 | a simple tag laid out as `StringTagIn` says is matched where it starts |
| Extract.ScriptOpenAtComplete | packages/hyperfixi-python/hyperfixi/scanner.py:96-99 | `<script`, a run without `>` holding the type attribute, then `>`, is a hyperscript opening tag |
| Extract.ScriptAtComplete | packages/hyperfixi-python/hyperfixi/scanner.py:96-99 | a hyperscript opening tag followed by its first `</script>` is matched, with the text between as the group |
| Extract.MatchAtComplete | packages/hyperfixi-python/hyperfixi/scanner.py:237 | every text with a carrier's layout is that carrier's match where it starts, so a match is exactly such a text |
| Extract.Scan | packages/hyperfixi-python/hyperfixi/scanner.py:237 | `finditer` reports matches found where they start, in order and without overlap |
| Extract.ScanCovers | packages/hyperfixi-python/hyperfixi/scanner.py:237 | every position where the pattern matches is reported or lies inside a reported match |
| Extract.FindAll | packages/hyperfixi-python/hyperfixi/scanner.py:237 | each reported match is a match of the carrier where it starts, and the matches are in order without overlap |
| Extract.FindAllCovers | packages/hyperfixi-python/hyperfixi/scanner.py:237 | no match of the carrier is skipped unless an earlier reported match consumed its start |
| Extract.FindAllLeading | packages/hyperfixi-python/hyperfixi/scanner.py:237 | a match at the start of the text is the first one reported |
| Extract.MatchReported | packages/hyperfixi-python/hyperfixi/scanner.py:237-240 | a match that no earlier match of its carrier reaches across is reported, so its non-blank group is a snippet |
| Extract.AttributeExtends | packages/hyperfixi-python/hyperfixi/scanner.py:79-87 | an attribute matched in a text is matched alike whatever is appended, since the pattern looks no further than its closing quote and trail |
| Extract.BlockTagExtends | packages/hyperfixi-python/hyperfixi/scanner.py:89 | a block matched in a text is matched alike when a text starting with `{` is appended |
| Extract.StringTagExtends | packages/hyperfixi-python/hyperfixi/scanner.py:91-94 | a simple tag matched in a text is matched alike when a text starting with `{` is appended |
| Extract.ScriptExtends | packages/hyperfixi-python/hyperfixi/scanner.py:96-99 | a script element matched in a text is matched alike whatever is appended |
| Extract.AttributeNoneAcross | packages/hyperfixi-python/hyperfixi/scanner.py:79-87 | when the text before leaves no match of the attribute form unclosed (`Extract.ClosedIn`) and the lead follows, every match starting before the lead is unchanged and none reaches across it |
| Extract.TagNoneAcross | packages/hyperfixi-python/hyperfixi/scanner.py:89-94 | when the text before leaves no block or simple tag of the form unclosed and a `{` follows, every match starting before it is unchanged and none reaches across it |
| Extract.ScriptNoneAcross | packages/hyperfixi-python/hyperfixi/scanner.py:96-99 | when the text before leaves no hyperscript element unclosed and a `<` follows, every match starting before it is unchanged and none reaches across it |
| Extract.ExtractHyperscript | packages/hyperfixi-python/hyperfixi/scanner.py:222-242 | every snippet is non-empty, has no surrounding whitespace and occurs in the text; order and multiplicity follow from `Extract.ExtractFromAppend` and `Extract.ExtractFromOne` |
| Extract.SnippetsExact | packages/hyperfixi-python/hyperfixi/scanner.py:237-240 | a snippet is kept exactly when it is the non-empty stripped group of one of the matches |
| Extract.Snippets | packages/hyperfixi-python/hyperfixi/scanner.py:237-240 | every kept snippet is non-empty, has no surrounding whitespace and occurs in the text; `Extract.SnippetsAppend` and `Extract.SnippetsOne` fix its order and multiplicity |
| Extract.ExtractFrom | packages/hyperfixi-python/hyperfixi/scanner.py:236-240 | every snippet extracted by a list of patterns is non-empty, stripped and occurs in the text; `Extract.ExtractFromAppend` and `Extract.ExtractFromOne` fix its order and multiplicity |
| Extract.SnippetsAppend | packages/hyperfixi-python/hyperfixi/scanner.py:237-240 | the snippets of two runs of matches are those of the first followed by those of the second |
| Extract.SnippetsOne | packages/hyperfixi-python/hyperfixi/scanner.py:238-240 | one match gives its stripped group, or nothing when that is blank |
| Extract.ExtractFromAppend | packages/hyperfixi-python/hyperfixi/scanner.py:236-240 | the snippets of two lists of patterns are those of the first followed by those of the second |
| Extract.ExtractFromOne | packages/hyperfixi-python/hyperfixi/scanner.py:236-240 | one pattern gives the snippets of its matches, in the order `finditer` reports them |
| Extract.ExtractFromExact | packages/hyperfixi-python/hyperfixi/scanner.py:236-240 | the output holds exactly the snippets some pattern of the catalogue yields |
| Extract.ExtractHyperscriptExact | packages/hyperfixi-python/hyperfixi/scanner.py:222-242 | a snippet is extracted exactly when one of the thirteen patterns yields it |
| Extract.AttributeRoundTrip | packages/hyperfixi-python/hyperfixi/scanner.py:79-87 | a body without the closing quotes, written in any attribute form after any text that leaves no match of that form unclosed and followed by anything, is extracted again, stripped |
| Extract.StringTagRoundTrip | packages/hyperfixi-python/hyperfixi/scanner.py:91-94 | a body without the quote, written as `{% hs_attr/hs_script "…" %}` after any text that leaves no such tag unclosed and followed by anything, is extracted again, stripped |
| Extract.BlockRoundTrip | packages/hyperfixi-python/hyperfixi/scanner.py:89 | a body without `{`, written as `{% hs %}…{% endhs %}` after any text that leaves no block unclosed and followed by anything, is extracted again, stripped |
| Extract.ScriptRoundTrip | packages/hyperfixi-python/hyperfixi/scanner.py:96-99 | a body without `<`, written in `<script type="text/hyperscript">` after any text that leaves no `<script` tag or hyperscript element unclosed and followed by anything, is extracted again, stripped |
| Words.KeywordAt | packages/hyperfixi-python/hyperfixi/scanner.py:114-115 | `\bkw\b` under IGNORECASE at a position; `Words.KeywordAtIsWord` gives its word-level reading |
| Words.ForAt | packages/hyperfixi-python/hyperfixi/scanner.py:119 | `\bfor\s+` then `each` or `every` then `\b`, under IGNORECASE, at a position; `Words.ForSearch` gives its word-level reading |
| Words.RepeatAt | packages/hyperfixi-python/hyperfixi/scanner.py:116-118 | `\brepeat\s+(count)\s+times?\b` under IGNORECASE at a position; `Words.RepeatSearch` gives its word-level reading |
| Words.Search | packages/hyperfixi-python/hyperfixi/scanner.py:261 | `pattern.search(script) is not None`: the pattern matches at some position |
| Words.KeywordAtIsWord | packages/hyperfixi-python/hyperfixi/scanner.py:104-109 | `\bkw\b` matches at a position exactly when a whole word equal to `kw`, ignoring case, starts there |
| Words.KeywordSearch | packages/hyperfixi-python/hyperfixi/scanner.py:114-115 | a keyword block pattern finds something exactly when its keyword occurs as a whole word |
| Words.ForSearch | packages/hyperfixi-python/hyperfixi/scanner.py:119 | the `for` pattern finds something exactly when the word `for`, whitespace and the word `each` or `every` occur |
| Words.RepeatSearch | packages/hyperfixi-python/hyperfixi/scanner.py:116-118 | the `repeat` pattern finds something exactly when `repeat`, whitespace, a count, whitespace and `time`/`times` occur as words |
| Classify.FirstAlternative | packages/hyperfixi-python/hyperfixi/scanner.py:104-109 | the alternation takes the first alternative that matches whole at the position, and none earlier matches |
| Classify.Collect | packages/hyperfixi-python/hyperfixi/scanner.py:257 | a `finditer` loop reports at most one word per position scanned, since every match consumes a character |
| Classify.AlternationStep | packages/hyperfixi-python/hyperfixi/scanner.py:257-258 | where the alternation matches, the reported word is the matched text, lower-cased, and lies inside the snippet |
| Classify.CollectSound | packages/hyperfixi-python/hyperfixi/scanner.py:257 | every word a `finditer` loop reports was matched at some position of the scanned range |
| Classify.CollectComplete | packages/hyperfixi-python/hyperfixi/scanner.py:257 | when matches cannot overlap, a `finditer` loop reports every match at or after its start |
| Classify.AlternationStepAt | packages/hyperfixi-python/hyperfixi/scanner.py:257-258 | where an alternative is taken, its lower-case form is reported and its length consumed |
| Classify.AlternationConsumes | packages/hyperfixi-python/hyperfixi/scanner.py:257 | every match of the alternation consumes at least one character |
| Classify.AlternationNoOverlap | packages/hyperfixi-python/hyperfixi/scanner.py:104-109 | whole-word matches of the alternation never start inside one another |
| Classify.FindWords | packages/hyperfixi-python/hyperfixi/scanner.py:257-258 | every reported command is the lower-case form of an alternative |
| Classify.FindWordsSound | packages/hyperfixi-python/hyperfixi/scanner.py:257-258 | every reported command occurs in the snippet as a whole word |
| Classify.FindWordsComplete | packages/hyperfixi-python/hyperfixi/scanner.py:257-258 | every alternative matching anywhere after the scan start is reported, lower-cased |
| Classify.FindWordsExact | packages/hyperfixi-python/hyperfixi/scanner.py:257-258 | a word is reported exactly when it is in the vocabulary and occurs as a whole word |
| Classify.AlternationSearch | packages/hyperfixi-python/hyperfixi/scanner.py:270-271 | a search with the alternation succeeds exactly when some alternative occurs as a whole word |
| Classify.BlocksFrom | packages/hyperfixi-python/hyperfixi/scanner.py:261-267 | the reported block kinds lie in `VALID_BLOCKS` and never include `unless` |
| Classify.BlocksBySearch | packages/hyperfixi-python/hyperfixi/scanner.py:261-267 | a kind is reported exactly when its pattern, or the `unless` pattern for `if`, finds something |
| Classify.AnalyzeScript | packages/hyperfixi-python/hyperfixi/scanner.py:244-273 | reported commands lie in `VALID_COMMANDS`, and reported blocks lie in `VALID_BLOCKS` without `unless` |
| Classify.CommandsDetected | packages/hyperfixi-python/hyperfixi/scanner.py:256-258 | a command is reported exactly when it is valid and occurs as a whole word in any case |
| Classify.BlocksDetected | packages/hyperfixi-python/hyperfixi/scanner.py:260-267 | a block kind is reported exactly when its word-level phrase occurs, with `unless` counting as `if` |
| Classify.PositionalDetected | packages/hyperfixi-python/hyperfixi/scanner.py:269-271 | the flag is raised exactly when one of the six positional words occurs |
| Scanner.NewScanner | packages/hyperfixi-python/hyperfixi/scanner.py:177-208 | a given non-empty setting is kept, and a missing or empty one falls back to the default |
| Scanner.LastIndex | packages/hyperfixi-python/hyperfixi/scanner.py:212 | `rfind` returns the last position of the character, or nothing when the character is absent |
| Scanner.Name | packages/hyperfixi-python/hyperfixi/scanner.py:212 | the name is the slash-free tail of the path after its last slash |
| Scanner.Suffix | packages/hyperfixi-python/hyperfixi/scanner.py:212 | the suffix is empty or a dot plus at least one dot-free character, ending the name and shorter than it |
| Scanner.NameInDirectory | packages/hyperfixi-python/hyperfixi/scanner.py:212 | the name of `dir/name` is `name` |
| Scanner.SuffixOfStem | packages/hyperfixi-python/hyperfixi/scanner.py:212 | the suffix of `stem.ext` is `.ext` |
| Scanner.Excluded | packages/hyperfixi-python/hyperfixi/scanner.py:215-218 | the pattern loop rejects a path exactly when some pattern occurs in it |
| Scanner.ShouldScan | packages/hyperfixi-python/hyperfixi/scanner.py:210-220 | a path is scanned iff its lower-cased suffix is included and no exclude pattern occurs in it |
| Scanner.DefaultSkipsExcluded | packages/hyperfixi-python/hyperfixi/scanner.py:200-207 | by default no path containing `node_modules`, `.git`, a virtualenv name, `__pycache__` or `site-packages` is scanned |
| Scanner.DefaultScansTemplate | packages/hyperfixi-python/hyperfixi/scanner.py:192-199 | by default `dir/stem.ext` is scanned when `ext`, in any case, is a default extension and nothing excluded occurs in the path |
| Scanner.ScanContent | packages/hyperfixi-python/hyperfixi/scanner.py:275-301 | a file's usage stays inside the command and block vocabularies and never reports `unless` |
| Scanner.ScanContentCommands | packages/hyperfixi-python/hyperfixi/scanner.py:286-291 | a file uses a command exactly when one of its snippets has it as a whole word |
| Scanner.ScanContentBlocks | packages/hyperfixi-python/hyperfixi/scanner.py:286-291 | a file uses a block kind exactly when one of its snippets does |
| Scanner.ScanContentPositional | packages/hyperfixi-python/hyperfixi/scanner.py:286-291 | a file's flag is raised exactly when one of its snippets uses a positional word |
| Scanner.AttributeCommandDetected | packages/hyperfixi-python/hyperfixi/scanner.py:275-301 | a command written as a whole word in `_="…"`, after any text that leaves no `_="` value unclosed and before any text, is reported for the file |
| Scanner.AttributeAfterOtherAttribute | packages/hyperfixi-python/hyperfixi/scanner.py:275-301 | after `<button class="btn" `, whose quotes belong to another attribute, a command in `_="…"` is still reported |
| Scanner.BlockUnlessReportedAsIf | packages/hyperfixi-python/hyperfixi/scanner.py:275-301 | `unless` inside `{% hs %}…{% endhs %}`, after any text that leaves no block unclosed and before any text, makes the file report `if`, and never `unless` |
| Scanner.BlockAfterOtherTag | packages/hyperfixi-python/hyperfixi/scanner.py:275-301 | after `{% load hyperfixi %}` an `unless` in a block is still reported as `if` |
| Scanner.ScriptPositionalDetected | packages/hyperfixi-python/hyperfixi/scanner.py:275-301 | a positional word in a hyperscript script element, after any text that leaves no `<script` tag or hyperscript element unclosed and before any text, raises the file's flag |
| Scanner.ScriptAfterOtherScript | packages/hyperfixi-python/hyperfixi/scanner.py:275-301 | after `<script src="a.js"></script>` a positional word in a hyperscript element still raises the flag |
| Scanner.ScanFile | packages/hyperfixi-python/hyperfixi/scanner.py:303-319 | an unreadable file gives `FileUsage()`, and any result stays inside the vocabularies |
| Scanner.Outcome | packages/hyperfixi-python/hyperfixi/scanner.py:336-340 | a listing entry stores a usage exactly when it is a file, passes the filter and has a non-empty usage, and stores that usage |
| Scanner.Gather | packages/hyperfixi-python/hyperfixi/scanner.py:336-340 | every stored usage was present for its path in the listing |
| Scanner.GatherKeys | packages/hyperfixi-python/hyperfixi/scanner.py:336-340 | a path is stored exactly when some usage is present for it |
| Scanner.GatherValue | packages/hyperfixi-python/hyperfixi/scanner.py:336-340 | a path keeps the last usage present for it |
| Scanner.ScanDirectory | packages/hyperfixi-python/hyperfixi/scanner.py:321-342 | a missing directory gives `{}`, and every recorded usage is non-empty for a path that passes the filter |
| Scanner.ScanDirectoryKeys | packages/hyperfixi-python/hyperfixi/scanner.py:321-342 | a path is recorded exactly when some file entry under it passes the filter and has a non-empty usage |
| Scanner.ScanDirectoryValue | packages/hyperfixi-python/hyperfixi/scanner.py:336-340 | a recorded path maps to the usage of its last recorded entry |
| Scanner.ScanDirectoryIgnoresDebug | packages/hyperfixi-python/hyperfixi/scanner.py:321-342 | the model carries the debug switch but no debug output, so no result depends on it; this holds by construction |
| Scanner.UpdateAll | packages/hyperfixi-python/hyperfixi/scanner.py:356-358 | every path of the combined map comes, with its value, from one of the maps |
| Scanner.UpdateAllKeys | packages/hyperfixi-python/hyperfixi/scanner.py:356-358 | a path is in the combined map exactly when some map holds it |
| Scanner.UpdateAllLastWins | packages/hyperfixi-python/hyperfixi/scanner.py:356-358 | the combined map takes a path's value from the last map holding it |
| Scanner.ScanDirectories | packages/hyperfixi-python/hyperfixi/scanner.py:344-360 | every recorded usage is non-empty for a path that passes the filter |
| Scanner.ScanDirectoriesKeys | packages/hyperfixi-python/hyperfixi/scanner.py:344-360 | a path is recorded exactly when some root's scan records it |
| Scanner.ScanDirectoriesLastWins | packages/hyperfixi-python/hyperfixi/scanner.py:354-360 | a path recorded under several roots keeps the usage from the last of them |

## Left out

- Reading files, `directory.exists()`, `rglob` and `is_file` are not modelled. A directory is a given listing, and a read failure is a `None` content.
- The debug `print` calls in `scan_content` and `scan_file` are not modelled, and no member reads the switch, so `Scanner.ScanDirectoryIgnoresDebug` holds by construction and proves nothing about those branches. With the switch on, the prints can change the outcome, and the model does not cover that. A print in `scan_content` (`scanner.py:293-299`) that raises is caught by the `try` of `scan_file` (`scanner.py:313-319`), so the file yields `FileUsage()`. The print in that `except` handler can itself raise out of `scan_file`.
- Unicode is not modelled. `\w`, `\b`, `\s`, `str.strip()`, IGNORECASE and `str.lower()` are restricted to ASCII. Under IGNORECASE Python also matches some non-ASCII characters against ASCII letters: the Kelvin sign for `k`, `ſ` (U+017F) for `s`, and `ı` (U+0131) and `İ` (U+0130) for `i`. Python's `\w` and `\b` also count non-ASCII letters as word characters. The model does neither.
- Classify.AnalyzeScript: its contract that reported commands lie in `VALID_COMMANDS` holds for ASCII content only. For the text `ſhow` the program matches `show`, but `str.lower()` keeps `ſ`, so it reports the name `ſhow`, which is outside its vocabulary. It also finds the `if` block in `ıf`. The model does not have these folds.
- Classify.CommandsDetected: the word-level characterisation, like those of `Classify.BlocksDetected` and `Classify.PositionalDetected`, holds for ASCII content only, for the reasons given for `Classify.AnalyzeScript`.
- `pathlib` normalisation is not modelled. Paths are plain slash-separated strings already in the form `str(path)` prints. The suffix rule is the one of Python 3.12.
- `AggregatedUsage` is only modelled for `to_dict`. No code shown builds or fills one, so its union invariant is not stated.
- No concrete file is evaluated. The lemmas `Scanner.AttributeCommandDetected`, `Scanner.BlockUnlessReportedAsIf` and `Scanner.ScriptPositionalDetected` state the detection behaviour for every body and every surrounding text that meets their conditions.
- Extract.AttributeRoundTrip: the text before the attribute must leave no match of the same attribute form unclosed (`Extract.ClosedIn`). That is, every lead followed by an opening quote in it must have its closing quote and trail in it too. Such an unclosed value can run on into the attribute and hide it. No other earlier text can. Quotes of other attributes and complete earlier matches are allowed (`Scanner.AttributeAfterOtherAttribute`).
- Extract.StringTagRoundTrip: the text before the tag must leave no match of the same simple tag unclosed. Every `{% name "` it holds must be completed by its closing quote and `%}` within it. Other template tags are allowed.
- Extract.BlockRoundTrip: the text before the block must leave no `{% hs %}` block unclosed: each `{% hs %}` in it must be followed by a `{% endhs %}` in it. Other template tags are allowed (`Scanner.BlockAfterOtherTag`). The body must not contain `{`. A `{` that does not start a closing tag would also be fine, but the lemma does not cover that case.
- Extract.ScriptRoundTrip: the text before the element must leave no `<script` tag open. Each `<script` in it must reach its `>` within it, and when that tag declares `text/hyperscript` its `</script>` must lie within it too. Other script elements are allowed (`Scanner.ScriptAfterOtherScript`). The body must not contain `<`. Only the opening tag `<script type="text/hyperscript">` is covered. Other attribute layouts are matched by `Extract.ScriptAt` but have no round-trip lemma.
- Extract.MatchAtComplete: it needs the quote of a simple tag not to be whitespace, and `Extract.TagOpenComplete` needs the tag name not to start with whitespace. Every pattern of the catalogue meets both; for others the greedy whitespace runs could swallow the quote or the first letter of the name.
- Scanner.AttributeCommandDetected: the text before the attribute must leave no `_="` value unclosed, as for `Extract.AttributeRoundTrip`.
- Scanner.BlockUnlessReportedAsIf: the text before the block must leave no `{% hs %}` block unclosed, as for `Extract.BlockRoundTrip`.
- Scanner.ScriptPositionalDetected: the text before the element must leave no `<script` tag or hyperscript element unclosed, as for `Extract.ScriptRoundTrip`.
- Scanner.ScanDirectoryKeys: it assumes nothing about duplicate paths in a listing. `rglob` never yields one twice, so for a real listing the directory map does not depend on listing order. The model does not state that order independence.
