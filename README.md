# ipymd converters, modelled in Dafny

This project models `ipymd/converters.py`, which converts between Jupyter
notebooks and Markdown in both directions.

- **Notebook to Markdown** (`NotebookToMarkdown`, `notebook_to_markdown.dfy`).
  Each cell becomes a Markdown fragment:
  - a markdown cell gives its source text followed by one line feed;
  - a code cell gives a fence tagged with the notebook's language, the source
    unchanged, and a closing fence followed by a line feed.

  The fragments are joined with `"\n"`. The notebook must have `nbformat >= 4`.
  Its language is `metadata.language_info.name`, or `"python"` when that is
  absent.
- **Adjacent-code-cell merge** (`MergeInputs`, `merge.dfy`). This is the loop of
  `_merge_successive_inputs`. A code cell that follows a code cell is appended to
  the previous cell's source, after a `"\n"` element. The loop is proved against
  the function `Merged`. The lemmas show three things about `Merged`:
  - no two consecutive code cells remain;
  - non-code cells keep their order;
  - every source string survives, in order.
- **Markdown to notebook** (`MarkdownToNotebook`, `markdown_to_notebook.dfy`).
  - `NotebookWriter` is a class holding the growing list of cells.
  - `Renderer` is the callback object. Each block callback that produces a cell
    appends exactly one cell to the writer. `hrule`, the table callbacks,
    `autolink`, `list_item` and every inline callback are functions, so they
    cannot change the cell list.
  - `block_code` makes a code cell only when the fence tag is exactly `"python"`.
    Any other tag, or none, gives a markdown cell: the code is stripped and
    re-fenced without a trailing line feed.
  - `list` splits the stripped body at line feeds, so an empty body is one empty
    item.
  - `Convert` plays the parser's part: it replays a sequence of block events,
    in document order, through a fresh renderer.
- **Round trip** (`RoundTrip`, `roundtrip.dfy`). Suppose the parser reads each
  fragment back as one paragraph or one python fence. Then a python notebook of
  markdown and code cells serializes to the same Markdown again.
- `PyStrings` (`pystrings.dfy`) models the Python string operations the code
  uses: `''.join`, `sep.join`, `str.split`, `str.strip`, `c * n` and `'%d' % n`.
  Each comes with its inverse or characterising lemma.

In these cases the model follows the code, which is easy to misread:

- A cell that is neither markdown nor code yields `None` from `process_cell`.
  `'\n'.join` then raises `TypeError`, so the cell is not silently dropped. The
  as-written behaviour is `NbToMarkdown`; the dropping behaviour is
  `NbToMarkdownDropping` (see Findings).
- Merging two code cells `"a=1"` and `"b=2"` gives the text `"a=1\nb=2"`. The
  code inserts a single `"\n"` element, not a blank line (`MergeTwoCodeCells`).
- `block_code` compares the fence tag with the literal `"python"`, not with the
  notebook's declared language.
- `table`, `table_row`, `table_cell` and `autolink` return `None`, not an empty
  string.

## Model

| member | source | states |
|---|---|---|
| `PyStrings.Concat` | ipymd/converters.py:9 | `''.join`: with `ConcatAppend`, `ConcatSingle` and `Concat([]) == ""` it is the parts concatenated in order |
| `PyStrings.ConcatAppend` | ipymd/converters.py:9 | `''.join` of two lists concatenated is the concatenation of their joins |
| `PyStrings.ConcatSingle` | ipymd/converters.py:14 | `''.join` of a one-string list is that string |
| `PyStrings.Join` | ipymd/converters.py:54 | `sep.join`: `JoinAppend` puts `sep` at the seam of two joined lists, and `JoinSplit`/`SplitJoin` make it the inverse of `split` on a one-character separator |
| `PyStrings.JoinAppend` | ipymd/converters.py:54 | `sep.join(a + b)` is `sep.join(a) + sep + sep.join(b)` for non-empty `a`, `b` |
| `PyStrings.Split` | ipymd/converters.py:98 | `str.split(c)` always yields at least one piece, and no piece contains `c` |
| `PyStrings.JoinSplit` | ipymd/converters.py:97-98 | joining the pieces of `s.split(c)` with `c` gives `s` back |
| `PyStrings.SplitPrefix` | ipymd/converters.py:115 | a separator-free prefix stays whole at the head of a split |
| `PyStrings.SplitJoin` | ipymd/converters.py:115-119 | splitting a join of separator-free pieces gives back the pieces |
| `PyStrings.StripLeft` | ipymd/converters.py:93 | left strip keeps a suffix, drops only whitespace, and what it keeps does not start with whitespace |
| `PyStrings.StripRight` | ipymd/converters.py:93 | right strip keeps a prefix, drops only whitespace, and what it keeps does not end with whitespace |
| `PyStrings.Strip` | ipymd/converters.py:115 | `str.strip()` is never longer than its input and neither starts nor ends with whitespace; `StripLeft` and `StripRight` say it removes only whitespace, from the two ends |
| `PyStrings.StripIdempotent` | ipymd/converters.py:93 | stripping twice equals stripping once |
| `PyStrings.Repeat` | ipymd/converters.py:107 | `'#' * n` has `max(n, 0)` characters, all of them `'#'` |
| `PyStrings.DecimalString` | ipymd/converters.py:117 | `'%d' % n` is a non-empty string of digits without a leading zero |
| `PyStrings.DecimalRoundTrip` | ipymd/converters.py:117 | reading back the digits of `'%d' % n` gives `n` |
| `Cells.LangTag` | ipymd/converters.py:15 | `lang or ''`: the fence tag, placed after the opening backticks by `ProcessCellInput` and `FencedText` |
| `NotebookToMarkdown.ProcessCellMarkdown` | ipymd/converters.py:8-9 | the fragment is the cell's source text followed by exactly one `'\n'`; a missing source gives `"\n"` |
| `NotebookToMarkdown.ProcessCellInput` | ipymd/converters.py:11-16 | the fragment is an opening fence tagged `lang or ''`, then the source text unchanged, then `"\n```\n"` |
| `NotebookToMarkdown.ProcessCell` | ipymd/converters.py:18-23 | a cell yields a fragment exactly when it is markdown or code (any other type gives None), and every fragment ends with a line feed |
| `NotebookToMarkdown.Language` | ipymd/converters.py:53 | the language is `language_info.name`, and `"python"` when it is absent |
| `NotebookToMarkdown.Collect` | ipymd/converters.py:54 | a list comprehension handed to `'\n'.join` has one string per element whenever it has no None |
| `NotebookToMarkdown.CollectAppend` | ipymd/converters.py:54 | the comprehension over `a + b` is the comprehension over `a` followed by that over `b` |
| `NotebookToMarkdown.CollectAt` | ipymd/converters.py:54 | element `i` of the comprehension is the function applied to element `i` |
| `NotebookToMarkdown.CollectDefined` | ipymd/converters.py:54 | the comprehension has no None exactly when the function yields a string for every element |
| `NotebookToMarkdown.Fragments` | ipymd/converters.py:54 | the per-cell fragment list has one fragment per cell whenever all its elements are strings |
| `NotebookToMarkdown.FragmentsDefined` | ipymd/converters.py:54 | the per-cell fragment list is all strings exactly when no cell has a type other than markdown or code |
| `NotebookToMarkdown.FragmentsAt` | ipymd/converters.py:54 | fragment `i` of the list is the fragment of cell `i` |
| `NotebookToMarkdown.NbToMarkdown` | ipymd/converters.py:43-56 | fails with `UnsupportedFormat` exactly when `nbformat < 4`; fails in the join exactly when some cell has another type; otherwise it is the fragments joined with `'\n'` |
| `NotebookToMarkdown.FragmentsAppend` | ipymd/converters.py:54 | the fragments of `a + b` are those of `a` followed by those of `b` |
| `NotebookToMarkdown.NbToMarkdownAppend` | ipymd/converters.py:54 | the Markdown of cells `a + b` is the Markdown of `a`, `'\n'`, then the Markdown of `b`, so fragments come out in cell order |
| `NotebookToMarkdown.NbToMarkdownSingle` | ipymd/converters.py:54 | a one-cell notebook serializes to that cell's fragment alone |
| `NotebookToMarkdown.DefaultLanguageIsPython` | ipymd/converters.py:53-54 | without language metadata, code fragments open with "```python\n" |
| `NotebookToMarkdown.FenceExample` | ipymd/converters.py:11-16 | the python code cell `"x = 1"` serializes to "```python\nx = 1\n```\n" |
| `NotebookToMarkdown.KnownCells` | ipymd/converters.py:18-23 | the corrected serializer keeps only markdown and code cells; with `KnownCellsAppend` and `KnownCellsSingle` it keeps every one of them, in order |
| `NotebookToMarkdown.KnownCellsAppend` | ipymd/converters.py:54 | filtering `a + b` is filtering `a`, then `b`, so the kept cells stay in notebook order |
| `NotebookToMarkdown.KnownCellsSingle` | ipymd/converters.py:18-23 | one cell is kept exactly when it is a markdown or a code cell |
| `NotebookToMarkdown.NbToMarkdownDropping` | ipymd/converters.py:43-56 | corrected serializer: fails only when `nbformat < 4`, and drops cells of other types |
| `NotebookToMarkdown.KnownFragmentsOfKnownCells` | ipymd/converters.py:54 | the fragments the corrected serializer keeps are the fragments of the markdown and code cells |
| `NotebookToMarkdown.DroppingIsOriginalOnKnownCells` | ipymd/converters.py:54 | the corrected serializer gives what the original gives on the notebook reduced to its markdown and code cells |
| `NotebookToMarkdown.KnownCellsOfKnown` | ipymd/converters.py:18-23 | a notebook of markdown and code cells loses nothing when the other cells are filtered out |
| `NotebookToMarkdown.DroppingIgnoresOtherCell` | ipymd/converters.py:54 | the corrected serializer gives the same Markdown with or without a cell of another type, wherever it stands |
| `NotebookToMarkdown.DroppingAgreesWithoutOtherCells` | ipymd/converters.py:54 | without cells of other types, the corrected serializer and the original agree |
| `NotebookToMarkdown.RawCellBreaksSerialization` | ipymd/converters.py:54 | one raw cell makes the original fail in the join; the corrected serializer yields `""` |
| `MergeInputs.Merged` | ipymd/converters.py:25-41 | the merged list is empty only when the input is; it is no longer than the input; its last cell has the input's last cell's type |
| `MergeInputs.MergeSuccessiveInputs` | ipymd/converters.py:25-41 | the loop, with its `is_last_input` flag, builds exactly `Merged(cells)` |
| `MergeInputs.MergedNoAdjacentCode` | ipymd/converters.py:34-38 | after merging, no two consecutive cells are both code cells |
| `MergeInputs.NonCode` | ipymd/converters.py:31-32 | filtering keeps only cells that are not code |
| `MergeInputs.NonCodeSnoc` | ipymd/converters.py:38 | appending a cell extends the non-code filter by that cell when it is not code |
| `MergeInputs.MergedKeepsNonCode` | ipymd/converters.py:34-38 | merging keeps the non-code cells unchanged and in the same relative order |
| `MergeInputs.SourcesSnoc` | ipymd/converters.py:38 | the sources of a list grown by one cell end with that cell's source |
| `MergeInputs.SourcesMerge` | ipymd/converters.py:36 | appending `'\n'` and a further source to the last cell's source appends them to the list of all sources |
| `MergeInputs.MergedSources` | ipymd/converters.py:36 | the merged cells hold exactly the original sources in order, with one `'\n'` element added at each merge point, so no source content is lost |
| `MergeInputs.MergedSnoc` | ipymd/converters.py:34-38 | one more cell extends the last merged cell when it and the cell before it are code cells, and is appended otherwise |
| `MergeInputs.MergedCut` | ipymd/converters.py:34-40 | a non-code cell cuts the list: the cells after it merge on their own, independently of those before |
| `MergeInputs.MergedRun` | ipymd/converters.py:34-36 | a run of code cells becomes one code cell holding the run's own sources in order, with a `'\n'` element between neighbours |
| `MergeInputs.MergedLength` | ipymd/converters.py:34-38 | each neighbouring pair of code cells removes exactly one cell |
| `MergeInputs.MergedNoAdjacentIsIdentity` | ipymd/converters.py:34-38 | a list without neighbouring code cells is returned unchanged |
| `MergeInputs.MergedIdempotent` | ipymd/converters.py:25-41 | merging twice equals merging once |
| `MergeInputs.MergeTwoCodeCells` | ipymd/converters.py:36 | code cells `"a=1"` and `"b=2"` merge into one cell whose text is `"a=1\nb=2"` |
| `MarkdownToNotebook.Show` | ipymd/converters.py:161 | `'%s' % v` is `"None"` for `None` and the string itself otherwise |
| `MarkdownToNotebook.FencedText` | ipymd/converters.py:92-93 | a non-python block is re-wrapped as an opening fence tagged `lang or ''`, the stripped code, then "\n```" |
| `MarkdownToNotebook.BlockCodeCell` | ipymd/converters.py:87-94 | a code cell exactly when the tag is `"python"`, holding the code unchanged; otherwise a markdown cell with the re-fenced stripped code |
| `MarkdownToNotebook.QuoteLines` | ipymd/converters.py:97-98 | one output line per input line, each prefixed with `"> "` |
| `MarkdownToNotebook.QuoteText` | ipymd/converters.py:97-98 | `block_quote`'s text: by `QuoteTextLines` its lines are the input's lines each prefixed with `"> "`, and by `QuoteTextUnquotes` the input comes back |
| `MarkdownToNotebook.QuoteTextLines` | ipymd/converters.py:96-100 | the quote has as many lines as its input, and line `i` is `"> "` followed by input line `i` |
| `MarkdownToNotebook.QuoteTextUnquotes` | ipymd/converters.py:96-100 | removing `"> "` from each quote line gives back the quoted text |
| `MarkdownToNotebook.HeaderText` | ipymd/converters.py:106-109 | `max(level, 0)` `'#'` characters, one space, then the text unchanged |
| `MarkdownToNotebook.ListItems` | ipymd/converters.py:115 | there is at least one item, and the items joined with `'\n'` give the stripped body |
| `MarkdownToNotebook.ListLines` | ipymd/converters.py:116-119 | line `i` is the item's marker followed by item `i` |
| `MarkdownToNotebook.MarkerHasNoLineFeed` | ipymd/converters.py:117-119 | neither `"{i+1}. "` nor `"* "` contains a line feed |
| `MarkdownToNotebook.ListText` | ipymd/converters.py:116-119 | `list`'s text: by `ListTextLines` one marked line per item of the stripped body, numbered from 1 by `OrderedMarkersCount` |
| `MarkdownToNotebook.ListLinesSplit` | ipymd/converters.py:117-119 | the list text splits back into its lines |
| `MarkdownToNotebook.ListTextLines` | ipymd/converters.py:114-121 | the list text has one line per `'\n'`-separated item of the stripped body; line `i` is `"{i+1}. "` or `"* "` followed by item `i` |
| `MarkdownToNotebook.OrderedMarkersCount` | ipymd/converters.py:117 | the marker of ordered item `i` ends in `". "` and its digits read `i + 1`, so numbering starts at 1 and is consecutive |
| `MarkdownToNotebook.BlankListIsOneEmptyItem` | ipymd/converters.py:115-119 | an empty or blank body gives the single line `"1. "` or `"* "` |
| `MarkdownToNotebook.TwoItems` | ipymd/converters.py:115 | the body `"a\nb"` has the items `"a"` and `"b"` |
| `MarkdownToNotebook.BulletedExample` | ipymd/converters.py:118-119 | the unordered list of `"a"` and `"b"` is `"* a\n* b"` |
| `MarkdownToNotebook.NumberedExample` | ipymd/converters.py:116-117 | the ordered list of `"a"` and `"b"` is `"1. a\n2. b"` |
| `MarkdownToNotebook.NotebookWriter.constructor` | ipymd/converters.py:65-66 | a new writer holds no cells |
| `MarkdownToNotebook.NotebookWriter.AppendMarkdown` | ipymd/converters.py:68-69 | appends exactly one markdown cell holding the text; earlier cells are unchanged |
| `MarkdownToNotebook.NotebookWriter.AppendCode` | ipymd/converters.py:71-72 | appends exactly one code cell holding the text; earlier cells are unchanged |
| `MarkdownToNotebook.Renderer.constructor` | ipymd/converters.py:80-82 | a new renderer owns a fresh, empty writer |
| `MarkdownToNotebook.Renderer.BlockCode` | ipymd/converters.py:87-94 | appends exactly the one cell `BlockCodeCell(code, lang)` and returns `code` unchanged |
| `MarkdownToNotebook.Renderer.BlockQuote` | ipymd/converters.py:96-100 | appends one markdown cell holding the quoted text and returns that text |
| `MarkdownToNotebook.Renderer.BlockHtml` | ipymd/converters.py:102-104 | appends one markdown cell holding the markup verbatim and returns it |
| `MarkdownToNotebook.Renderer.Header` | ipymd/converters.py:106-109 | appends one markdown cell holding the header text and returns it |
| `MarkdownToNotebook.Renderer.Hrule` | ipymd/converters.py:111-112 | returns `""` and appends nothing |
| `MarkdownToNotebook.Renderer.List` | ipymd/converters.py:114-121 | appends one markdown cell holding the list text and returns it |
| `MarkdownToNotebook.Renderer.ListItem` | ipymd/converters.py:123-124 | returns the item followed by one line feed; appends nothing |
| `MarkdownToNotebook.Renderer.Paragraph` | ipymd/converters.py:126-128 | appends one markdown cell holding the text and returns it |
| `MarkdownToNotebook.Renderer.Table` | ipymd/converters.py:130-131 | returns `None` and appends nothing |
| `MarkdownToNotebook.Renderer.TableRow` | ipymd/converters.py:133-134 | returns `None` and appends nothing |
| `MarkdownToNotebook.Renderer.TableCell` | ipymd/converters.py:136-137 | returns `None` and appends nothing |
| `MarkdownToNotebook.Renderer.Autolink` | ipymd/converters.py:139-140 | returns `None` and appends nothing |
| `MarkdownToNotebook.Renderer.Codespan` | ipymd/converters.py:142-143 | the text between single backticks, recoverable by removing them |
| `MarkdownToNotebook.Renderer.DoubleEmphasis` | ipymd/converters.py:145-146 | the text between `**` and `**` |
| `MarkdownToNotebook.Renderer.Emphasis` | ipymd/converters.py:148-149 | the text between `*` and `*` |
| `MarkdownToNotebook.Renderer.Image` | ipymd/converters.py:151-152 | `![title](src)`, with the alt text used when the title is None or empty |
| `MarkdownToNotebook.Renderer.Linebreak` | ipymd/converters.py:154-155 | returns a line feed |
| `MarkdownToNotebook.Renderer.Newline` | ipymd/converters.py:157-158 | returns a line feed |
| `MarkdownToNotebook.Renderer.Link` | ipymd/converters.py:160-161 | `[content](link)`, with the title used when the content is empty, and `"None"` when the title is None too |
| `MarkdownToNotebook.Renderer.Tag` | ipymd/converters.py:163-164 | returns the inline markup unchanged |
| `MarkdownToNotebook.Renderer.Strikethrough` | ipymd/converters.py:166-167 | the text between `~~` and `~~` |
| `MarkdownToNotebook.Renderer.Text` | ipymd/converters.py:169-170 | returns the text unchanged |
| `MarkdownToNotebook.EventCell` | ipymd/converters.py:87-140 | a block event yields a cell exactly when it is neither a horizontal rule nor a table |
| `MarkdownToNotebook.Dispatch` | ipymd/converters.py:87-140 | invoking an event's callback appends that event's cell, or nothing for a rule or a table |
| `MarkdownToNotebook.Convert` | ipymd/converters.py:173-179 | replaying events through a fresh renderer gives exactly `EventCells(events)` |
| `MarkdownToNotebook.EventCells` | ipymd/converters.py:173-179 | the cells `markdown_to_nb` builds: `Convert` produces exactly this list, `EventCellsCount` gives one cell per cell-producing event, `EventCellsAppend` keeps event order, and `SuppressedEventsVanish` drops rules and tables |
| `MarkdownToNotebook.EventCellsCount` | ipymd/converters.py:173-179 | the notebook has one cell per cell-producing event |
| `MarkdownToNotebook.EventCellsAppend` | ipymd/converters.py:173-179 | the cells of events `a + b` are the cells of `a` followed by the cells of `b` (parse order) |
| `MarkdownToNotebook.SuppressedEventsVanish` | ipymd/converters.py:111-112 | removing a horizontal rule or a table from the events leaves the notebook unchanged |
| `RoundTrip.ParsedEvent` | ipymd/converters.py:87-128 | a fragment read back as a python fence or a paragraph always yields a cell |
| `RoundTrip.CodeCellRoundTrip` | ipymd/converters.py:11-16 | a code cell's fence, rendered back with tag `"python"`, gives a code cell with the same text and the same fragment |
| `RoundTrip.MarkdownCellRoundTrip` | ipymd/converters.py:8-9 | a markdown cell read back as a paragraph serializes to the same fragment |
| `RoundTrip.HeadingRoundTrip` | ipymd/converters.py:106-109 | `"## Title"` becomes one markdown cell `"## Title"`, whose fragment is `"## Title\n"` |
| `RoundTrip.FragmentsPointwise` | ipymd/converters.py:54 | cells with equal per-cell fragments have equal fragment lists |
| `RoundTrip.EventCellsAllProducing` | ipymd/converters.py:173-179 | when every event produces a cell, cell `i` is event `i`'s cell |
| `RoundTrip.ReserializeIsIdentity` | ipymd/converters.py:43-54 | a notebook of markdown and code cells whose language is python (declared or by default), serialized and read back fragment by fragment, serializes to the same Markdown |

## Left out

- File reading and writing (`open`, `json.load`, `f.write`, `NotebookWriter.save`,
  and reading the file in `markdown_to_nb`). These are I/O. `NbToMarkdown`
  returns the text instead of writing it.
- The mistune parser, how it orders callbacks, and how it nests inline results
  into block callbacks. This is an external library. `Convert` takes the
  sequence of block events the parser would report. The model does not say
  what the parser does with the `None` returned by the table and `autolink`
  callbacks.
- nbformat internals: notebook metadata, cell outputs, execution counts and ids.
  A `Cell` carries only its type and its source list.
- `MergeInputs.MergeSuccessiveInputs`: the source extends the first cell's
  `source` list in place, so the caller's cell object changes too. The model
  works on values and does not capture this aliasing. The model also omits the
  `KeyError` raised when a code cell has no `source` key.
- A missing `source` key is read as an empty list, as `cell.get('source', [])`
  does in `process_cell_markdown` and `process_cell_input`.
- The `assert` in `nb_to_markdown` is disabled under `python -O`. The model
  always applies the `nbformat >= 4` check.
- The unused `**kwargs` options, `placeholder`, `header`'s `raw`, `autolink`'s
  `is_email` and `table_cell`'s flags. None of them affects behaviour.
- `str.strip` strips only the ASCII whitespace characters: space, 0x09 to 0x0D,
  and 0x1C to 0x1F. Non-ASCII Unicode whitespace is not modelled.
- Python `'%s'` formatting of values that are neither strings nor `None`. Every
  parameter is a string, an optional string, an integer or a boolean.
- Notebooks that `nb_to_markdown` and `_merge_successive_inputs` reject with an
  exception: a missing `nbformat`, `cells` or `metadata` key raises `KeyError`
  (lines 47, 49 and 53). In the merge loop, a cell whose `source` is a single
  string rather than a list makes `['\n'] + cell['source']` raise `TypeError`
  (line 36). `Notebook` always has these fields, and `Cell.source` is always a
  list, so `Merged` merges such cells instead of failing.
- A `language_info.name` set to JSON `null`. Python then tags the fence with
  `lang or ''`, which gives an untagged "```\n" (lines 53 and 15). `Notebook.languageName`
  is either absent (`None`, read as `"python"`) or a string, so this case cannot be
  expressed.
- The writer's terminal state after `save`. It belongs to the I/O that is left
  out.

## Findings

| source | as written | input that shows it | evidently intended | confidence | as-written member | corrected member |
|---|---|---|---|---|---|---|
| ipymd/converters.py:18-23, 54 | `process_cell` returns `None` for a cell that is neither markdown nor code, and `'\n'.join` then raises `TypeError` | a version 4 notebook with one `raw` cell | cells of other types are dropped and the remaining fragments joined | medium; not executed | `NotebookToMarkdown.RawCellBreaksSerialization` | `NotebookToMarkdown.NbToMarkdownDropping` |

