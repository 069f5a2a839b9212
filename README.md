# notebook.js, modelled in Dafny

notebook.js turns a parsed notebook record into a tree of markup elements. The record uses notebook format 3: a notebook holds worksheets, a worksheet holds cells, and a code cell holds an input and outputs.

The model has two halves:

- Pure specifications. Each piece of the element tree is a function of the records (`Render`, `Display`). Stream coalescing is `Streams.Coalesced`.
- The objects the library builds (`Document`). These are classes that are constructed from the records and rendered by loops. Each one is proved equal to its specification.

Modules:

- `Wrappers`: `Option` and `Result`.
- `Text`:
  - joining of source fragments;
  - `escapeHTML`, as two replacement passes, proved equal to per-character escaping;
  - newline removal;
  - the class list a host reads from a class attribute;
  - the decimal spelling of an integer prompt number. This is what `String(n)` gives for integers a double holds exactly and below 10^21 in magnitude.
- `Dom`: the host document reduced to an `Element` value. An element has a tag, a class attribute, an attribute map, markup content and a child sequence. `Config` holds the class prefix (`"nb-"`) and the markdown and ANSI converters, which default to the identity. `makeElement` appears here as `MakeElement`.
- `Records`: the output, cell, worksheet and notebook records, and the JavaScript truthiness tests the code applies to them:
  - a string is truthy when it is present and non-empty;
  - a prompt number is truthy when it is present and non-zero;
  - a payload is truthy unless it is the empty string.
- `Display`:
  - the format priority `png, jpeg, svg, html, latex, javascript, text`;
  - the filter-then-first choice of `render_display_data`;
  - one renderer per format.
- `Streams`: `coalesceStreams` as a pure function over output records, with lemmas on size, order, merging and the preservation of stream text.
- `Render`: the element each kind of object renders to. A failure anywhere fails the whole rendering, as the exception does in JavaScript.
- `Document`:
  - the classes `Output` (its record is updated in place), `Input`, `Cell`, `Worksheet` and `Notebook`;
  - `CoalesceStreams`, which is the in-place pass over `Output` objects;
  - the `render` loops;
  - `Parse`.

Failures the code would raise as exceptions become `Err` values:

- an output type with no renderer (`renderers[this.type]` is undefined);
- a cell type with no renderer;
- a payload of the wrong shape (`join` or `replace` called on the wrong kind of value).

The first failure aborts the rendering of everything above it, as the thrown exception does.

Representation choices:

- A stream's text lives in the record field `text`. The display formats of a `display_data` or `pyout` output live in `data`, under their format keys. The `text` format of such an output is `data["text"]`. In the JSON both are the same key `text`. They never meet, because only stream outputs are merged and only display outputs are looked up by format.
- The back-references (`cell.worksheet.notebook`, `output.cell`) are used only to reach the prompt number and the notebook's language. The model passes these two values down to `Render` instead.

## Model

| member | source | states |
|---|---|---|
| Text.EscapeHtml | notebook.js:23-28 | the escaped text contains no `<` and no `>` |
| Text.EscapeHtmlIsPerCharacter | notebook.js:23-28 | the two global replacements equal escaping each character on its own, so every other character is kept, in order |
| Text.EscapeHtmlIdempotent | notebook.js:23-28 | escaping twice gives the same text as escaping once |
| Text.UnescapeEscapeHtml | notebook.js:23-28 | for text without `&`, decoding the two entities gives the original text back, so escaping loses nothing |
| Text.EscapedEntityLooksLikeAngle | notebook.js:23-28 | `&` is not escaped, so the text `&lt;` escapes to the same markup as `<` |
| Text.RemoveNewlines | notebook.js:83 | the result has no newline and holds only characters of the input |
| Text.RemoveNewlinesAppend | notebook.js:83 | removing newlines from two pieces gives the removal from each piece, in order |
| Text.RemoveNewlinesOfChar | notebook.js:83 | a single character is kept unless it is a newline; with the previous row, every other character is kept, in order |
| Text.RemoveNewlinesOfLines | notebook.js:83 | lines without newlines, joined with newlines, read as the lines concatenated once the newlines are removed |
| Text.IntToDecimalRoundTrip | notebook.js:63-64 | the decimal spelling of a prompt number is a well-formed optionally signed numeral that denotes that number |
| Text.TokensOfJoin | notebook.js:17-19 | joining non-empty, space-free names with single spaces and reading the class list back gives the names, in order |
| Dom.Prefixed | notebook.js:17-18 | one class per name, each being the prefix followed by the name, at the same position |
| Dom.ClassNameOfNone | notebook.js:17 | an absent or empty class list gives the empty class attribute |
| Dom.ClassListOfElement | notebook.js:15-21 | the class list of a made element is each given name with the prefix in front, in the given order |
| Display.PresentFormats | notebook.js:124-126 | the filtered list is no longer than the priority list and holds only listed formats present in the record |
| Display.PresentFormatsComplete | notebook.js:124-126 | every format of the list that is present in the record is in the filtered list |
| Display.PresentFormatsIsSubsequence | notebook.js:124-126 | the filtered list is a subsequence of the list, so it keeps the list's order |
| Display.FirstPresentFormat | notebook.js:124-127 | for a list without repeats, the filter is empty iff no format is present, and its first element is the one at position i iff that one is present and none before it is |
| Display.ChosenFormatIsEarliestPresent | notebook.js:117-128 | no format is chosen iff none of the priority list is present; the chosen format is `DisplayPriority[i]` iff it is present and no earlier entry is |
| Display.ChoiceDependsOnPresentSet | notebook.js:122-128 | two records with the same set of present formats choose the same format |
| Display.ImageSrcShape | notebook.js:80-86 | the image source starts with `data:image/<format>;base64,`; the rest has no newline, holds only payload characters, and is the payload itself when the payload has no newline |
| Display.ImageSrcOfLines | notebook.js:80-86 | a payload wrapped into newline-separated lines gives the header followed by the lines concatenated in order, so every non-newline character is kept in order |
| Display.RenderShape | notebook.js:89-115 | a renderer fails exactly on a payload of the wrong shape; png and jpeg give an `img` whose only attribute is the data-URI `src`; html, svg and latex give a `div` holding the joined lines verbatim; text gives a `pre` holding the escaped joined lines; javascript gives a `script` holding the payload |
| Display.PlainTextIsEscaped | notebook.js:89-93 | plain-text output renders, carries no angle bracket, and decodes back to the joined lines when they contain no `&` |
| Display.RenderDisplayDataUsesPriority | notebook.js:122-133 | a record with no present format renders as the `empty-output` div; otherwise it renders with the renderer of its highest-priority present format |
| Display.PngWinsOverText | notebook.js:117-129 | a record holding both a png image and text renders as an `img` |
| Display.JavascriptRendererThrows | notebook.js:109-113 | as written, a record whose best format is javascript fails with the undefined `script`; the corrected renderer succeeds on it |
| Streams.Push | notebook.js:175-182 | a step of the pass keeps the length when the output continues the last kept output, and adds one otherwise |
| Streams.Coalesced | notebook.js:170-185 | the result is never longer than the input and is empty exactly when the input is |
| Streams.CoalescedPrefixIsCoalesced | notebook.js:174-183 | the state after the first n steps of the pass is the coalescing of the first n outputs |
| Streams.CoalescedHead | notebook.js:172-173 | the first result is the first input, with only its text changed, and its text extended |
| Streams.CoalescedHasNoAdjacentContinuation | notebook.js:175-181 | no two adjacent results are stream outputs of the same stream |
| Streams.CoalescedSplitsAtNonStream | notebook.js:175-181 | a non-stream output separates runs: coalescing around it is coalescing the part before it, followed by coalescing the part from it on |
| Streams.CoalescedOfSeparated | notebook.js:170-185 | outputs with no adjacent same-stream pair are returned unchanged |
| Streams.CoalescedIdempotent | notebook.js:170-185 | coalescing twice is the same as coalescing once |
| Streams.CoalescedKeepsNonStreams | notebook.js:179-181 | the non-stream outputs of the result are those of the input, each once, unchanged and in order |
| Streams.CoalescedKeepsFragments | notebook.js:178 | the text fragments of all streams, and of each named stream alone, are the same before and after, in order |
| Streams.CoalescedKeepsStreamText | notebook.js:174-183 | the concatenated text of all stream outputs is the same before and after the pass |
| Streams.TwoStdoutFragmentsMerge | notebook.js:175-178 | two adjacent `stdout` outputs with texts `["a"]` and `["b"]` become one output whose text reads `"ab"` |
| Render.WithPromptSetsAttribute | notebook.js:159-162 | `data-prompt-number` is set exactly when the prompt number is truthy, and its value denotes that number |
| Render.EmptyInputIsBareDiv | notebook.js:60 | an empty source renders as a bare classless `div` with nothing in it |
| Render.InputElementShape | notebook.js:59-77 | a non-empty source renders as `div.input > pre > code`; the code's language is the notebook's when truthy, else the cell's; its content is `escapeHTML` of the joined source, has no angle bracket, and decodes back to the source when the source has no `&`; the prompt attribute is on the holder exactly when the prompt number is truthy |
| Render.OutputBodyShape | notebook.js:141-155 | an output type outside `display_data`, `pyout`, `pyerr`, `stream` is reported as unknown, and only those are; `display_data` and `pyout` render their data by format priority; a traceback goes through the ANSI converter into `pre.pyerr`, and stream text into a `pre` classed by the stream's name; any failure is an unknown type or a payload shape |
| Render.PngOutputWinsOverText | notebook.js:141-143 | a `display_data` or `pyout` output holding both png and text renders as a `div.output` around an `img` |
| Render.OutputElementShape | notebook.js:157-167 | an output renders exactly when its body does, failing with the body's error, as a `div.output` whose only child is the body, with the prompt attribute exactly when the prompt number is truthy |
| Render.TracebackIsNotEscaped | notebook.js:144-148 | with the identity converter, a traceback is inserted verbatim, unescaped |
| Render.CollectOk | notebook.js:239-241 | appending in order succeeds exactly when every item renders, and then gives one element per item, each the item's rendering, in order |
| Render.CollectErr | notebook.js:239-241 | a failure is the failure of the first item that fails |
| Render.CollectFailedPrefix | notebook.js:262-264 | once a prefix fails, the whole sequence fails the same way |
| Render.CellElementShape | notebook.js:202-227 | a cell type outside markdown, heading, code is reported as unknown, and only those are; markdown goes through the markdown converter into a `div`; a heading is an `h<level>` holding its joined source verbatim |
| Render.CodeCellErrors | notebook.js:213-220 | a code cell fails only with an unknown output type or a payload shape |
| Render.CodeCellChildren | notebook.js:213-220 | a code cell renders exactly when all its coalesced outputs do, and its children are the rendered input followed by one rendered output per coalesced output, in order |
| Render.CodeCellWithoutOutputs | notebook.js:213-220 | a code cell with input and no outputs renders as one code block holding the escaped joined input |
| Render.WorksheetChildren | notebook.js:237-244 | a worksheet renders exactly when all its cells do, with one child per cell, each the cell's rendering, in order |
| Render.NotebookChildren | notebook.js:260-267 | a notebook renders exactly when all its worksheets do, with one child per worksheet, each the worksheet's rendering with the notebook's language, in order |
| Document.Output.constructor | notebook.js:135-139 | the output holds its record and the record's type |
| Document.Output.Render | notebook.js:157-167 | building the `div.output` step by step (the prompt attribute when truthy, the type's renderer, the appended body) gives `OutputElement` of the type and current record, whose shape `OutputElementShape` states |
| Document.Input.constructor | notebook.js:54-57 | the input holds its source lines |
| Document.WrapOutputs | notebook.js:195-197 | one fresh, distinct output object per record, holding that record, in order |
| Document.AbsorbNext | notebook.js:178 | the last kept output's record gets the next output's text appended in place, and the pass's state invariant holds one position further |
| Document.KeepNext | notebook.js:180-181 | keeping an output that does not continue the last run extends the pass's state by that output |
| Document.CoalesceStep | notebook.js:174-183 | one callback of the pass keeps its state invariant, and `last` stays the last kept output |
| Document.CoalesceStreams | notebook.js:170-185 | the kept outputs' records are `Coalesced` of the records before the pass; the kept outputs are a subsequence of the input, in order, starting with the first |
| Document.Cell.constructor | notebook.js:188-200 | input and outputs are set exactly for code cells; the outputs hold `Coalesced` of the raw outputs, a missing list read as empty |
| Document.Cell.Render | notebook.js:223-227 | a cell object renders to the element its record specifies, an unknown type failing |
| Document.Cell.RenderCode | notebook.js:213-220 | a code cell object renders to the code-cell element its record specifies |
| Document.AppendOutputs | notebook.js:216-218 | appending each output's rendering to the cell element gives the collected renderings after the existing children, or the first failure |
| Document.Worksheet.constructor | notebook.js:230-236 | one valid cell object per cell record, in order |
| Document.Worksheet.Render | notebook.js:237-244 | a worksheet object renders to the worksheet element its record specifies |
| Document.Notebook.constructor | notebook.js:248-258 | the title is `metadata.title` when truthy and `metadata.name` otherwise; `sheet` is the first worksheet; one valid worksheet object per worksheet record |
| Document.Notebook.Render | notebook.js:260-267 | a notebook object renders to the notebook element its record specifies |
| Document.Parse | notebook.js:269-271 | parsing builds a fresh, valid notebook object for the record |

## Left out

- Acquiring the host document (`root.document` or jsdom) is left out. The document is the `Element` value, and the host's parsing of assigned markup is not modelled.
- Loading the optional markdown and ANSI libraries is left out. The converters are the `Config` fields `markdown` and `ansi`, and `DefaultConfig` uses the identity, which is the fallback.
- The process-wide `nb.prefix` is left out. The prefix is passed in `Config`.
- The AMD, CommonJS and global export wiring is left out. It is environment plumbing.
- The `el` render caches are not modelled. They do not affect what `render` returns.
- The back-references (`cell.worksheet.notebook`, `output.cell`) are not stored. The prompt number and the notebook's language they were used for are passed to `Render`.
- The `config` argument of `nb.Notebook` and `nb.parse` is not modelled. The constructor stores it and nothing reads it.
- Metadata fields other than `title`, `name` and `language` are not modelled. The code reads no others.
- Records missing keys the code reads without a guard are left out. These keys are `metadata`, `worksheets`, `cells`, `input`, `source`, `traceback` and `text`. A missing key is a JavaScript TypeError at construction or rendering. The record datatypes make these keys always present, and a missing `outputs` list is `None`.
- `String(prompt_number)` is modelled only for integers below 10^21 in magnitude that a double holds exactly. JavaScript spells fractional values with a decimal point, and values of 10^21 or more with an exponent (`1e+21`). Integers above 2^53 are not held exactly, and the model prints every digit of its unbounded integer.
- A payload whose lines are not strings is not modelled. Heading levels are integers in the model, so non-integer levels in the `h<level>` tag are not modelled.
- Aliasing is left out. The code mutates the caller's raw output records when it merges stream text. The model mutates the `raw` field of the `Output` objects it created, which hold copies of the records. So the model does not capture that parsing the same record twice merges again. For example, two `stdout` outputs `a` and `b` give `ab` on the first parse and `abb` on the second.
- Document.CoalesceStreams: describes the records of the kept outputs, but does not describe the state of the dropped outputs after the pass. The code leaves those untouched, and nothing reads them again.
- Exceptions are not modelled as exceptions. A rendering failure is an `Err` value that aborts the rendering of everything above it, which is what the thrown exception does to the caller.

## Findings

| source | as written | input that shows it | evidently intended | confidence | as-written member | corrected member |
|---|---|---|---|---|---|---|
| notebook.js:109-113 | the javascript renderer creates `el` but assigns the payload to the undefined identifier `script`, so it throws before returning | a `display_data` output whose data holds only a `javascript` payload, or `javascript` and `text` | a `script` element whose content is the payload | not executed | Display.JavascriptRendererThrows (on Display.RenderAsWritten) | Display.RenderShape (on Display.Render, which Display.RenderDisplayData uses) |
