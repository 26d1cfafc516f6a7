# RFC publishing tooling, modelled in Dafny

The repository publishes its RFC documents with two Python scripts.

`md2respec.py` turns one markdown document into a ReSpec HTML page. It does three things this project models:

- `main` checks the file extensions of its arguments.
- The `Latex` class hides code spans behind numbered `<!--CODE_BLOCK_n-->` placeholders, so that its math passes cannot touch them, and then puts them back.
- `apply_section_headers` wraps the rendered headers in `<section>` tags.

`gen_index.py` walks `source/` and keeps the `.md` files. For each one it lists the fields read from that file's front matter, the file's modification date, and a link rewritten from `source/…md` to `rfcs/…html`.

The project has five modules:

| file | module | models |
|---|---|---|
| `text_ops.dfy` | `TextOps` | the Python `str` operations the scripts use: `startswith`, `endswith`, `"sep".join`, `replace` (defined through a leftmost `find` and a non-overlapping `split`, which the scripts do not call themselves), `splitlines`, and the decimal rendering of a non-negative `int` |
| `section_headers.dfy` | `SectionHeaders` | `apply_section_headers` |
| `code_blocks.dfy` | `CodeBlocks` | `Latex.code_placeholder`, the escape passes, the math passes and the restore loop of `Latex.run`, and the class-level `code_blocks` dictionary |
| `command_line.dfy` | `CommandLine` | the two extension checks in `main` |
| `rfc_index.dfy` | `RfcIndex` | the `.md` filter and the link rewrite in the `os.walk` loop of `generate_rfc_page` |

How the source maps onto Dafny:

- **`apply_section_headers`** is the method `ApplySectionHeaders`. Its loop updates `new_lines` and `section_level` as the script does.
  - It is proved equal to a functional description, `Nest`: the sequence of tags and lines the scan emits.
  - The lemmas about the section structure are stated on `Nest`.
- **The `code_blocks` dictionary** lives on the `Latex` class and is never cleared.
  - Here it is the field `codeBlocks` of a `Latex` object that stands for the class.
  - It is held as a sequence of (placeholder, block) pairs in insertion order, which is the order Python dictionaries iterate in.
- **Each `re.sub` pass** is given as a *segmentation* of its input: the text between the matches and the matches themselves, each with its whole text and its first group. A `Matcher` is a function from a text to its segmentation; an `Externals` value holds one matcher per regular expression.
- **The LaTeX converter** is the function `convert` of `Externals`.

## Model

| member | source | states |
|---|---|---|
| TextOps.SplitLines | md2respec.py:65 | only the empty text has no lines |
| TextOps.SplitLinesNoBreaks | md2respec.py:65 | no output line holds a line boundary |
| TextOps.SplitLinesJoin | md2respec.py:65 | for text whose only line boundaries are `\n`, joining its lines with `"\n"` gives the text back, less a final newline |
| TextOps.JoinSplit | gen_index.py:28-30 | joining the pieces of a split by the separator gives back the text, which is how `replace` is defined here |
| TextOps.ReplaceRemoves | gen_index.py:28-30 | after `replace(p, r)`, `p` no longer occurs, unless `p` can overlap a copy of `r` |
| TextOps.ReplaceKeepsAbsence | gen_index.py:28-30 | `replace` does not create an occurrence of a pattern that cannot overlap the replacement text |
| TextOps.DecimalRoundTrip | md2respec.py:138 | the decimal digits written for `n` read back as `n` |
| SectionHeaders.ApplySectionHeaders | md2respec.py:52-83 | the result is the `"\n"` join of the tags and lines that `Nest` describes for the `splitlines` of the input, starting at level 0 |
| SectionHeaders.LoopStep | md2respec.py:69-80 | after each iteration, `new_lines` holds the tags and lines `Nest` gives for the lines seen so far, and `section_level` is the level they reach |
| SectionHeaders.LoopExit | md2respec.py:82-83 | appending one closing tag per open level to what the loop built gives the whole of `Nest` |
| SectionHeaders.ScanStep | md2respec.py:69-80 | one loop iteration appends the tags due before the line and then the line, and moves the level to that of a matched header |
| SectionHeaders.NestKeepsLines | md2respec.py:65-80 | every input line appears in the output exactly once and in order; everything else is a tag |
| SectionHeaders.OpenPrecedesHeader | md2respec.py:74-76 | every `<section>` stands immediately before a matched header line |
| SectionHeaders.ClosesAtEnd | md2respec.py:82 | after the last line come exactly as many closing tags as the final level |
| SectionHeaders.TagsBeforeLine | md2respec.py:69-80 | in the output, the items right before any input line are exactly the tags that line's header calls for at the level the earlier lines reached, and what follows is the output for the later lines |
| SectionHeaders.BodyAppend | md2respec.py:69-80 | scanning two runs of lines one after the other is scanning the second from the level the first leaves |
| SectionHeaders.LevelAfterAppend | md2respec.py:71-79 | the level after two runs of lines is the level after the second, started from the level after the first |
| SectionHeaders.LevelIsLastHeader | md2respec.py:71-79 | the tracked level is the level of the last matched header, or the starting level when there is none |
| SectionHeaders.LevelAfterSnoc | md2respec.py:73-79 | the level after one more line is that line's header level when it matches, and unchanged otherwise |
| SectionHeaders.NonHeadersPassThrough | md2respec.py:70-72 | `<hr />` and `<h2 id="x">` pass through with no tag and leave the level as it was; `<h2>` at level 0 opens one section and later closes two |
| SectionHeaders.NoHeadersNoTags | md2respec.py:69-82 | without matched headers the lines come out unchanged, followed only by the closes of the starting level |
| SectionHeaders.NoHeadersUnchanged | md2respec.py:82-83 | an input without matched headers gives `"\n".join(html.splitlines())` |
| SectionHeaders.ClosesCount | md2respec.py:78 | `["</section>"] * n` holds exactly `n` closing tags and no opening tag |
| SectionHeaders.TagCounts | md2respec.py:74-82 | the number of `<section>` tags is the number of rises in level; the number of `</section>` tags is the starting level plus the sum of all rises |
| SectionHeaders.RiseBounds | md2respec.py:74-79 | the number of rises is at most the sum of all rises, with equality exactly when every rise is by one level |
| SectionHeaders.TagsBalanceIffUnitRises | md2respec.py:52-83 | opening and closing tags balance if and only if every rise in level is by exactly one |
| SectionHeaders.UnitRisesNest | md2respec.py:52-83 | when every rise is by one, the output is properly nested sections |
| SectionHeaders.NestedIffUnitRises | md2respec.py:52-83 | the nested sections the doc comment promises come out if and only if every rise is by one level |
| SectionHeaders.JumpNest | md2respec.py:74-82 | `<h1>`, `<h3>` gives `<section>`, `<h1>`, `<section>`, `<h3>` and three closing tags |
| SectionHeaders.JumpUnbalanced | md2respec.py:74-82 | `<h1>`, `<h3>` gives 2 opening tags, 3 closing tags and no valid nesting |
| SectionHeaders.NestFixedWellNested | md2respec.py:74-76 | opening one section per level risen always gives properly nested sections, whatever the header levels |
| SectionHeaders.NestFixedKeepsLines | md2respec.py:65-80 | the corrected scan, like the script, keeps every input line once and in order |
| SectionHeaders.NestFixedAgrees | md2respec.py:74-76 | the corrected scan emits exactly what the script emits whenever every rise is by one level |
| CodeBlocks.Placeholder | md2respec.py:138 | a placeholder is never empty |
| CodeBlocks.PlaceholderShape | md2respec.py:138 | a placeholder is `<!--CODE_BLOCK_`, the decimal count and `-->`; its only `<` is the first character |
| CodeBlocks.PlaceholderNumber | md2respec.py:138 | the number inside the placeholder for `n` reads back as `n` |
| CodeBlocks.SamePosition | md2respec.py:138 | two placeholders that occur at the same position of a text are the same placeholder |
| CodeBlocks.PlaceholdersDistinct | md2respec.py:137-140 | placeholders for different counts differ, and none is a substring of another |
| CodeBlocks.ReplaceLone | md2respec.py:162 | `replace` of a placeholder that occurs once puts the block at that one place |
| CodeBlocks.AssignFresh | md2respec.py:139 | assigning a key that is not yet in the dictionary appends a new entry at the end |
| CodeBlocks.StoreNext | md2respec.py:137-139 | storing under the placeholder for the current count appends the entry, and every key stays the placeholder of its position |
| CodeBlocks.EscapePass | md2respec.py:137-155 | an escape pass stores one entry per match after the existing ones, unchanged, and keeps every key equal to the placeholder of its position |
| CodeBlocks.EscapeKeepsOthersOut | md2respec.py:137-155 | an escape pass brings in no placeholder other than those it numbers itself |
| CodeBlocks.EscapeFreeFrom | md2respec.py:137-155 | after an escape pass, the text holds no placeholder numbered at or above the new count |
| CodeBlocks.IdlePass | md2respec.py:153-158 | a pass with no match leaves the text as it was and stores nothing |
| CodeBlocks.MathIdleUnchanged | md2respec.py:157-158 | when neither math pass matches, the math passes leave the escaped text as it was |
| CodeBlocks.RestoreAppend | md2respec.py:161-162 | restoring with a dictionary of two parts is restoring with the first part and then with the second |
| CodeBlocks.RestoreAbsent | md2respec.py:161-162 | a text that holds none of the stored placeholders is restored unchanged |
| CodeBlocks.ForwardPass | md2respec.py:153-162 | restoring the entries of one escape pass in insertion order gives back the text the pass saw, when that text held none of its placeholders |
| CodeBlocks.OnePassForward | md2respec.py:153-162 | restoring the whole dictionary after one escape pass gives back the text the pass escaped |
| CodeBlocks.RunSpec | md2respec.py:127-164 | `run` (three escape passes, then `MathPasses`: the single-dollar and double-dollar passes with their converter callbacks, the latter first dropping every two-character backslash-n (`r"\n"`) from the formula, then the restore) only adds to the class dictionary: the earlier entries stay as they were and every key stays the placeholder of its position |
| CodeBlocks.RunRoundTripOnePass | md2respec.py:142-164 | `run` returns its input unchanged when the input holds no placeholder, the math passes match nothing and at most one escape pass matches |
| CodeBlocks.StaleBlockRestored | md2respec.py:127-162 | because the dictionary is never cleared, a later input containing an earlier placeholder gets the earlier block put in |
| CodeBlocks.NestedEscapeLeavesPlaceholder | md2respec.py:153-162 | for "`<pre>x</pre>`", the single-backtick pass captures the `<pre>` placeholder, and the output still holds `<!--CODE_BLOCK_0-->` |
| CodeBlocks.RestoreReverseAppend | md2respec.py:161-162 | restoring newest first with a dictionary of two parts restores the second part first and then the first |
| CodeBlocks.ReversePass | md2respec.py:153-162 | restoring the entries of one escape pass newest first gives back the text the pass saw, when that text held none of its placeholders |
| CodeBlocks.PassUndone | md2respec.py:153-162 | restoring in reverse insertion order undoes one escape pass on top of what was already stored |
| CodeBlocks.RunFixed | md2respec.py:142-164 | the corrected `run` also only adds to the dictionary, keeping the earlier entries |
| CodeBlocks.RunFixedRoundTrip | md2respec.py:142-164 | with the restore in reverse order, `run` returns its input unchanged for any matches of the three escape passes, when the input holds no placeholder and the math passes match nothing |
| CodeBlocks.Latex.constructor | md2respec.py:127 | the dictionary starts empty |
| CodeBlocks.Latex.CodePlaceholder | md2respec.py:137-140 | returns the placeholder for the current count and assigns the whole match to it, which appends a new entry |
| CodeBlocks.Latex.SubPlaceholders | md2respec.py:153-155 | `re.sub` with `code_placeholder` gives the escaped text and appends one entry per match, numbered on from the current count |
| CodeBlocks.Latex.RestoreBlocks | md2respec.py:161-162 | the loop applies one `replace` per stored entry in insertion order |
| CodeBlocks.Latex.Run | md2respec.py:142-164 | the text `run` returns and the dictionary it leaves are those of `RunSpec` |
| CommandLine.CheckPaths | md2respec.py:101-106 | the paths are accepted if and only if the input ends in `.md` and the output ends in `.html`; otherwise the matching error is raised, the input check first |
| CommandLine.DefaultOutputAccepted | md2respec.py:97-106 | with the default output `spec.html`, exactly the markdown inputs are accepted |
| RfcIndex.PathJoin | gen_index.py:16 | `os.path.join` ends with the file name and starts with the directory unless the name is absolute |
| RfcIndex.Link | gen_index.py:28-30 | a link never contains `source/` or `.md` |
| RfcIndex.LinkCanonical | gen_index.py:28-30 | `source/<rel>.md` links to `rfcs/<rel>.html` when `rel` contains neither pattern |
| RfcIndex.LinkRewritesEveryMatch | gen_index.py:28-30 | every `.md` is rewritten, including one inside a directory name: `source/<a>.md<b>.md` links to `rfcs/<a>.html<b>.html` |
| RfcIndex.LinkRewritesInnerMatches | gen_index.py:28-30 | `source/a.md.d/b.md` links to `rfcs/a.html.d/b.html` |
| RfcIndex.MdFiles | gen_index.py:14-15 | the kept file names all end in `.md`, and there are no more of them than files |
| RfcIndex.MdFilesAppend | gen_index.py:14-15 | the filter keeps traversal order: filtering two lists one after the other gives the two results one after the other |
| RfcIndex.MdFilesCount | gen_index.py:14-15 | each `.md` file is kept exactly as often as it is listed; any other file is kept zero times |
| RfcIndex.MdFilesMembers | gen_index.py:14-15 | a name is kept if and only if it is listed and ends in `.md` |
| RfcIndex.DirEntries | gen_index.py:14-30 | a directory contributes one entry per kept file |
| RfcIndex.DirEntriesSnoc | gen_index.py:14-21 | one more `.md` file appends its entry at the end; any other file adds nothing |
| RfcIndex.GenerateRfcEntries | gen_index.py:12-35 | the nested loop over the walk builds exactly `WalkEntries` of the walk |
| RfcIndex.WalkEntriesAppend | gen_index.py:13-21 | the entries of two walks one after the other are each walk's entries, in traversal order |
| RfcIndex.NoMarkdownNoEntries | gen_index.py:15 | a directory without `.md` files contributes no entry |
| RfcIndex.EntriesAreMarkdown | gen_index.py:15-30 | every entry's path ends in `.md`, and its link is the rewrite of that path, free of `source/` and `.md` |
| RfcIndex.EntriesAreWalkedFiles | gen_index.py:13-21 | every entry is the entry of a `.md` file of some walked directory, joined to that directory, and every such file has its entry |
| RfcIndex.EndsWithTail | gen_index.py:15-16 | joining a directory to a `.md` name gives a `.md` path |
| RfcIndex.EntryCount | gen_index.py:13-21 | the number of entries is the number of walked files that end in `.md` |

## Left out

- The repository's documents describe a FRI-based STARK verifier: its channel, commitments and proof of work. No code in these scripts implements it, so it is not part of this model.
- I/O and the environment are left out:
  - reading the markdown file, `os.walk` itself (given as a sequence of directories and file names), `os.path.getmtime`, writing `index.html`, and `print`;
  - `argparse`, apart from the default output path `spec.html`.
- Foreign libraries are left out: `frontmatter.load`, `markdown.markdown`, `latex2mathml` (`convert` is a parameter), `jinja2`, `string.Template.substitute` in `html_to_respec`, and `datetime.strftime`. The front-matter fields (`title`, `abstract`, `sotd`, `shortName`, `editor`) and the `updated` date are not modelled.
- RfcIndex.Entry: the script's entry holds no path. The model's `path` field stands for the file those fields and the date are read from; only `link` is a field of the script's entry.
- The metadata defaults in `convert_markdown_to_html` (md2respec.py:33-37) are left out. They are a lookup with a default on data from the foreign front-matter parser.
- The regular-expression engine is left out. Each pass's matches are given as a segmentation of its input, so the model does not establish which spans the five patterns match.
- The `ImportError` branch of `run` is left out, since the converter is a parameter here.
- SectionHeaders.MatchHeader: `\d` is read as an ASCII digit. Python's `\d` with `int()` also accepts other Unicode decimal digits, and those are not modelled.
- TextOps.SplitLinesJoin: the round trip is stated only for text whose line boundaries are all `\n`. For `\r\n`, `\r` and the other boundaries `splitlines` recognises, only SplitLinesNoBreaks is proved, not how the lines sit in the text.
- CodeBlocks.RunRoundTripOnePass: proved only when at most one of the three escape passes matches and the math passes match nothing. With two nested escape passes the script does not round-trip; see Findings.
- CodeBlocks.RunFixedRoundTrip: assumes that the math passes match nothing in the escaped text, since their output comes from the converter.
- CodeBlocks.Latex.Run: requires `Valid()`, meaning that every stored key is the placeholder of its position. The constructor establishes it and every method keeps it. Since only `code_placeholder` writes the dictionary, the script keeps it too.

## Findings

| source | as written | input that shows it | evidently intended | confidence | as-written member | corrected member |
|---|---|---|---|---|---|---|
| md2respec.py:74-78 | a rise in header level opens a single `<section>`, but a later fall closes one section per level | the lines `<h1>`, `<h3>` give 2 `<section>` and 3 `</section>` | one `<section>` per level risen, so sections always nest, as the doc comment promises | high (not executed) | SectionHeaders.JumpUnbalanced | SectionHeaders.NestFixedWellNested |
| md2respec.py:161-162 | placeholders are restored in insertion order, so a block that contains an earlier placeholder puts it back after it was already restored | "`<pre>x</pre>`": `<pre>…</pre>` becomes block 0, then the single-backtick pass captures "`<!--CODE_BLOCK_0-->`" as block 1, and the output is "`<!--CODE_BLOCK_0-->`" | restoring in reverse insertion order returns the input unchanged | high (not executed) | CodeBlocks.NestedEscapeLeavesPlaceholder | CodeBlocks.RunFixedRoundTrip |
