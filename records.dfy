/** The parsed notebook JSON the renderer reads (notebook format 3), and the
    JavaScript truthiness tests it applies to optional keys. */
module Records {
  import opened Wrappers

  /** A display payload: base64 image data is one string, text formats are
      lists of lines. */
  datatype Payload = Str(s: string) | Lines(lines: seq<string>)

  /** One output record. `text` is the text of a stream output; the display
      formats of a `display_data` or `pyout` output (`png`, `text`, ...) are
      in `data` under their key. */
  datatype OutputRecord = OutputRecord(
    outputType: string,
    stream: Option<string>,
    text: seq<string>,
    traceback: seq<string>,
    data: map<string, Payload>)

  /** One cell record. `outputs` is absent on cells saved without outputs. */
  datatype CellRecord = CellRecord(
    cellType: string,
    source: seq<string>,
    level: int,
    input: seq<string>,
    outputs: Option<seq<OutputRecord>>,
    promptNumber: Option<int>,
    language: Option<string>)

  datatype WorksheetRecord = WorksheetRecord(cells: seq<CellRecord>)

  datatype Metadata = Metadata(title: Option<string>, name: Option<string>, language: Option<string>)

  datatype NotebookRecord = NotebookRecord(metadata: Metadata, worksheets: seq<WorksheetRecord>)

  /** What goes wrong while rendering: a kind with no renderer, a payload of
      the wrong shape (a JavaScript TypeError on `join` or `replace`), and
      the undefined `script` of the javascript renderer as written. */
  datatype RenderError =
    | UnknownOutputType(outputType: string)
    | UnknownCellType(cellType: string)
    | PayloadShape(format: string)
    | ScriptUndefined

  /** A string key is truthy when present and non-empty. */
  predicate IsTruthy(o: Option<string>)
  {
    o.Some? && o.value != ""
  }

  /** `a || b` on two optional strings. */
  function Or(a: Option<string>, b: Option<string>): (r: Option<string>)
    ensures IsTruthy(a) ==> r == a
    ensures !IsTruthy(a) ==> r == b
  {
    if IsTruthy(a) then a else b
  }

  /** A prompt number is truthy when present and non-zero. */
  predicate HasPrompt(p: Option<int>)
  {
    p.Some? && p.value != 0
  }

  /** A payload is truthy unless it is the empty string (any list,
      even an empty one, is truthy). */
  predicate IsTruthyPayload(p: Payload)
  {
    p.Lines? || p.s != ""
  }

  /** `String(x)` of an optional string: `"undefined"` when absent. */
  function StringOf(o: Option<string>): string
  {
    match o
    case Some(s) => s
    case None => "undefined"
  }
}
