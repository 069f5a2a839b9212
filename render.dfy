/** The element tree the renderer produces, as functions of the records:
    input blocks, output blocks, the three cell kinds, worksheets and the
    notebook. A rendering that fails anywhere fails as a whole, as the
    exception thrown in JavaScript does. */
module Render {
  import opened Wrappers
  import opened Text
  import opened Dom
  import opened Records
  import opened Display
  import opened Streams

  const PromptAttribute: string := "data-prompt-number"

  /** Sets `data-prompt-number` to the prompt number when it is truthy. */
  function WithPrompt(el: Element, prompt: Option<int>): Element
  {
    if HasPrompt(prompt) then SetAttribute(el, PromptAttribute, IntToDecimal(prompt.value)) else el
  }

  /** The attribute is set exactly when the prompt number is truthy, and it
      spells that number. */
  lemma WithPromptSetsAttribute(el: Element, prompt: Option<int>)
    requires PromptAttribute !in el.attributes
    ensures PromptAttribute in WithPrompt(el, prompt).attributes <==> HasPrompt(prompt)
    ensures HasPrompt(prompt) ==>
      var spelt := WithPrompt(el, prompt).attributes[PromptAttribute];
      spelt != [] && (spelt[0] == '-' ==> IsDigits(spelt[1..])) && (spelt[0] != '-' ==> IsDigits(spelt)) &&
      SignedDecimalValue(spelt) == prompt.value
  {
    if HasPrompt(prompt) { IntToDecimalRoundTrip(prompt.value); }
  }

  // ---------------------------------------------------------------------
  // Inputs

  /** `nb.Input.prototype.render`: an empty source gives a bare `div`;
      otherwise a `div.input` holding `pre > code`, the code tagged with the
      notebook's language or else the cell's, its text escaped. */
  function InputElement(source: seq<string>, prompt: Option<int>, notebookLanguage: Option<string>,
                        cellLanguage: Option<string>, prefix: string): Element
  {
    if |source| == 0 then MakeElement("div", [], prefix)
    else
      var holder := WithPrompt(MakeElement("div", ["input"], prefix), prompt);
      var lang := StringOf(Or(notebookLanguage, cellLanguage));
      var code := SetAttribute(MakeElement("code", [], prefix), "data-language", lang);
      var code := SetContent(code.(className := "lang-" + lang), EscapeHtml(Concat(source)));
      AppendChild(holder, AppendChild(MakeElement("pre", [], prefix), code))
  }

  /** The code element of a rendered non-empty input. */
  function CodeOf(input: Element): Element
  {
    if |input.children| == 1 && |input.children[0].children| == 1 then input.children[0].children[0]
    else input
  }

  /** An empty source renders as a bare classless `div`. */
  lemma EmptyInputIsBareDiv(prompt: Option<int>, notebookLanguage: Option<string>,
                            cellLanguage: Option<string>, prefix: string)
    ensures InputElement([], prompt, notebookLanguage, cellLanguage, prefix) == Element("div", "", map[], "", [])
  {
  }

  /** A non-empty source renders as a code block: its text is escaped (no
      angle bracket, and without `&` the entities decode to the source), its
      language is the notebook's when truthy and otherwise the cell's, and
      the prompt attribute is on the holder exactly when the prompt number
      is truthy. */
  lemma InputElementShape(source: seq<string>, prompt: Option<int>, notebookLanguage: Option<string>,
                          cellLanguage: Option<string>, prefix: string)
    requires source != []
    ensures var el := InputElement(source, prompt, notebookLanguage, cellLanguage, prefix);
      var code := CodeOf(el);
      var lang := if IsTruthy(notebookLanguage) then notebookLanguage else cellLanguage;
      el.tag == "div" && el.className == prefix + "input" &&
      (PromptAttribute in el.attributes <==> HasPrompt(prompt)) &&
      |el.children| == 1 && el.children[0].tag == "pre" &&
      code.tag == "code" && code.className == "lang-" + StringOf(lang) &&
      code.attributes == map["data-language" := StringOf(lang)] &&
      code.innerHTML == EscapeHtml(Concat(source)) &&
      '<' !in code.innerHTML && '>' !in code.innerHTML &&
      ('&' !in Concat(source) ==> UnescapeHtml(code.innerHTML) == Concat(source))
  {
    WithPromptSetsAttribute(MakeElement("div", ["input"], prefix), prompt);
    if '&' !in Concat(source) { UnescapeEscapeHtml(Concat(source)); }
  }

  // ---------------------------------------------------------------------
  // Outputs

  /** `nb.Output.prototype.renderers[kind]` applied to the record, or an
      error when no renderer is registered for the kind. */
  function OutputBody(kind: string, raw: OutputRecord, cfg: Config): Result<Element, RenderError>
  {
    if kind == "display_data" || kind == "pyout" then RenderDisplayData(raw.data, cfg.prefix)
    else if kind == "pyerr" then
      Ok(SetContent(MakeElement("pre", ["pyerr"], cfg.prefix), cfg.ansi(Concat(raw.traceback))))
    else if kind == "stream" then
      Ok(SetContent(MakeElement("pre", [StringOf(raw.stream)], cfg.prefix), cfg.ansi(Concat(raw.text))))
    else Err(UnknownOutputType(kind))
  }

  /** `nb.Output.prototype.render`: a `div.output` around the body, with the
      cell's prompt number. */
  function OutputElement(kind: string, raw: OutputRecord, prompt: Option<int>, cfg: Config): Result<Element, RenderError>
  {
    match OutputBody(kind, raw, cfg)
    case Err(e) => Err(e)
    case Ok(inner) => Ok(AppendChild(WithPrompt(MakeElement("div", ["output"], cfg.prefix), prompt), inner))
  }

  /** Only the four output types have a renderer, and any other type is
      reported as unknown; `display_data` and `pyout` are rendered by format
      priority; tracebacks and stream text go through the ANSI converter
      into a `pre` classed `pyerr` or by the stream's name. */
  lemma OutputBodyShape(kind: string, raw: OutputRecord, cfg: Config)
    ensures var r := OutputBody(kind, raw, cfg);
      (r.Err? && r.error.UnknownOutputType? <==> kind !in {"display_data", "pyout", "pyerr", "stream"}) &&
      (kind in {"display_data", "pyout"} ==> r == RenderDisplayData(raw.data, cfg.prefix)) &&
      (kind == "pyerr" ==>
        r.Ok? && r.value.tag == "pre" && r.value.className == cfg.prefix + "pyerr" &&
        r.value.innerHTML == cfg.ansi(Concat(raw.traceback))) &&
      (kind == "stream" ==>
        r.Ok? && r.value.tag == "pre" && r.value.className == cfg.prefix + StringOf(raw.stream) &&
        r.value.innerHTML == cfg.ansi(Concat(raw.text))) &&
      (r.Err? ==> r.error.UnknownOutputType? || r.error.PayloadShape?)
  {
    if kind == "display_data" || kind == "pyout" {
      var r := RenderDisplayData(raw.data, cfg.prefix);
      if r.Err? {
        match ChosenFormat(raw.data)
        case None =>
        case Some(f) => assert r.error.PayloadShape?;
      }
    }
  }

  /** An output renders exactly when its body does, as a `div.output`
      holding the body, with the prompt attribute exactly when the prompt
      number is truthy. */
  lemma OutputElementShape(kind: string, raw: OutputRecord, prompt: Option<int>, cfg: Config)
    ensures var r := OutputElement(kind, raw, prompt, cfg);
      (r.Ok? <==> OutputBody(kind, raw, cfg).Ok?) &&
      (r.Err? ==> r.error == OutputBody(kind, raw, cfg).error) &&
      (r.Ok? ==>
        r.value.tag == "div" && r.value.className == cfg.prefix + "output" &&
        r.value.children == [OutputBody(kind, raw, cfg).value] &&
        (PromptAttribute in r.value.attributes <==> HasPrompt(prompt)))
  {
    WithPromptSetsAttribute(MakeElement("div", ["output"], cfg.prefix), prompt);
  }

  /** A `display_data` or `pyout` output holding both a png image and text
      renders as a `div.output` around an `img`. */
  lemma PngOutputWinsOverText(kind: string, raw: OutputRecord, prompt: Option<int>, cfg: Config)
    requires kind in {"display_data", "pyout"}
    requires Present(raw.data, Png) && Present(raw.data, PlainText)
    ensures var r := OutputElement(kind, raw, prompt, cfg);
      r.Ok? ==> r.value.children[0].tag == "img"
  {
    OutputBodyShape(kind, raw, cfg);
    OutputElementShape(kind, raw, prompt, cfg);
    PngWinsOverText(raw.data, cfg.prefix);
  }

  /** A traceback is passed to the ANSI converter without escaping; with
      the identity converter its markup is the joined traceback verbatim. */
  lemma TracebackIsNotEscaped(raw: OutputRecord, prompt: Option<int>)
    ensures var r := OutputElement("pyerr", raw, prompt, DefaultConfig);
      r.Ok? && r.value.children[0].innerHTML == Concat(raw.traceback)
  {
    OutputBodyShape("pyerr", raw, DefaultConfig);
    OutputElementShape("pyerr", raw, prompt, DefaultConfig);
  }

  // ---------------------------------------------------------------------
  // Rendering a sequence of children

  /** Renders each item in order, stopping at the first failure. */
  function Collect<T>(xs: seq<T>, render: T -> Result<Element, RenderError>): Result<seq<Element>, RenderError>
  {
    if xs == [] then Ok([])
    else
      match Collect(xs[..|xs| - 1], render)
      case Err(e) => Err(e)
      case Ok(els) =>
        match render(xs[|xs| - 1])
        case Err(e) => Err(e)
        case Ok(el) => Ok(els + [el])
  }

  /** Collecting succeeds exactly when every item renders, and then gives
      one element per item, in order. */
  lemma {:induction false} CollectOk<T>(xs: seq<T>, render: T -> Result<Element, RenderError>)
    ensures Collect(xs, render).Ok? <==> forall i :: 0 <= i < |xs| ==> render(xs[i]).Ok?
    ensures Collect(xs, render).Ok? ==>
      |Collect(xs, render).value| == |xs| &&
      forall i :: 0 <= i < |xs| ==> render(xs[i]) == Ok(Collect(xs, render).value[i])
  {
    if xs != [] {
      var prefix := xs[..|xs| - 1];
      CollectOk(prefix, render);
      assert forall i :: 0 <= i < |prefix| ==> prefix[i] == xs[i];
    }
  }

  /** A failure is the failure of the first item that fails. */
  lemma {:induction false} CollectErr<T>(xs: seq<T>, render: T -> Result<Element, RenderError>)
    requires Collect(xs, render).Err?
    ensures exists i :: 0 <= i < |xs| && render(xs[i]) == Err(Collect(xs, render).error) &&
                        forall j :: 0 <= j < i ==> render(xs[j]).Ok?
  {
    var prefix := xs[..|xs| - 1];
    assert forall i :: 0 <= i < |prefix| ==> prefix[i] == xs[i];
    if Collect(prefix, render).Err? {
      CollectErr(prefix, render);
    } else {
      CollectOk(prefix, render);
      var i := |xs| - 1;
      assert render(xs[i]) == Err(Collect(xs, render).error);
    }
  }

  /** Once a prefix fails, the whole sequence fails the same way. */
  lemma {:induction false} CollectFailedPrefix<T>(xs: seq<T>, k: nat, render: T -> Result<Element, RenderError>)
    requires k <= |xs| && Collect(xs[..k], render).Err?
    ensures Collect(xs, render) == Collect(xs[..k], render)
    decreases |xs| - k
  {
    if k < |xs| {
      var longer := xs[..k + 1];
      assert longer[..k] == xs[..k];
      CollectFailedPrefix(xs, k + 1, render);
    } else {
      assert xs[..k] == xs;
    }
  }

  lemma CollectStep<T>(xs: seq<T>, k: nat, render: T -> Result<Element, RenderError>)
    requires k < |xs|
    ensures Collect(xs[..k + 1], render) ==
      match Collect(xs[..k], render)
      case Err(e) => Err(e)
      case Ok(els) =>
        match render(xs[k])
        case Err(e) => Err(e)
        case Ok(el) => Ok(els + [el])
  {
    assert xs[..k + 1][..k] == xs[..k];
  }

  /** One step of rendering in order: the next item's rendering either
      extends the children rendered so far or is the failure of the whole
      sequence. */
  lemma CollectNext<T>(xs: seq<T>, k: nat, render: T -> Result<Element, RenderError>, rendered: Result<Element, RenderError>)
    requires k < |xs| && Collect(xs[..k], render).Ok? && rendered == render(xs[k])
    ensures rendered.Ok? ==> Collect(xs[..k + 1], render) == Ok(Collect(xs[..k], render).value + [rendered.value])
    ensures rendered.Err? ==> Collect(xs, render) == Err(rendered.error)
  {
    CollectStep(xs, k, render);
    if rendered.Err? {
      CollectFailedPrefix(xs, k + 1, render);
    }
  }

  // ---------------------------------------------------------------------
  // Cells

  /** The renderer applied to each output of a code cell. */
  function OutputRenderer(prompt: Option<int>, cfg: Config): OutputRecord -> Result<Element, RenderError>
  {
    (o: OutputRecord) => OutputElement(o.outputType, o, prompt, cfg)
  }

  /** The outputs a code cell holds: its raw outputs, missing ones read as
      none, with adjacent same-stream outputs coalesced. */
  function CellOutputs(raw: CellRecord): seq<OutputRecord>
  {
    Coalesced(raw.outputs.GetOr([]))
  }

  /** `renderers.code`: a `div.cell.code-cell` holding the input, then each
      output in order. */
  function CodeCellElement(raw: CellRecord, notebookLanguage: Option<string>, cfg: Config): Result<Element, RenderError>
  {
    var input := InputElement(raw.input, raw.promptNumber, notebookLanguage, raw.language, cfg.prefix);
    match Collect(CellOutputs(raw), OutputRenderer(raw.promptNumber, cfg))
    case Err(e) => Err(e)
    case Ok(els) => Ok(MakeElement("div", ["cell", "code-cell"], cfg.prefix).(children := [input] + els))
  }

  /** `renderers.markdown`: the joined source through the markdown converter. */
  function MarkdownCellElement(raw: CellRecord, cfg: Config): Element
  {
    SetContent(MakeElement("div", ["cell", "markdown-cell"], cfg.prefix), cfg.markdown(Concat(raw.source)))
  }

  /** `renderers.heading`: the joined source, unescaped, in an `h<level>`
      element. */
  function HeadingCellElement(raw: CellRecord, cfg: Config): Element
  {
    SetContent(MakeElement("h" + IntToDecimal(raw.level), ["cell", "heading-cell"], cfg.prefix), Concat(raw.source))
  }

  /** `nb.Cell.prototype.render`: dispatch on the cell type; a type with no
      renderer is an error. */
  function CellElement(raw: CellRecord, notebookLanguage: Option<string>, cfg: Config): Result<Element, RenderError>
  {
    if raw.cellType == "markdown" then Ok(MarkdownCellElement(raw, cfg))
    else if raw.cellType == "heading" then Ok(HeadingCellElement(raw, cfg))
    else if raw.cellType == "code" then CodeCellElement(raw, notebookLanguage, cfg)
    else Err(UnknownCellType(raw.cellType))
  }

  /** Only the three cell types have a renderer, and any other type is
      reported as unknown; markdown goes through the markdown converter and
      a heading becomes an `h<level>` element holding its source as it is. */
  lemma CellElementShape(raw: CellRecord, notebookLanguage: Option<string>, cfg: Config)
    ensures var r := CellElement(raw, notebookLanguage, cfg);
      (raw.cellType !in {"markdown", "heading", "code"} <==> r == Err(UnknownCellType(raw.cellType))) &&
      (raw.cellType == "markdown" ==>
        r.Ok? && r.value.tag == "div" && r.value.innerHTML == cfg.markdown(Concat(raw.source))) &&
      (raw.cellType == "heading" ==>
        r.Ok? && r.value.tag == "h" + IntToDecimal(raw.level) && r.value.innerHTML == Concat(raw.source))
  {
    if raw.cellType == "code" {
      CodeCellErrors(raw, notebookLanguage, cfg);
    }
  }

  /** A code cell fails only with the failure of one of its outputs: an
      output type without a renderer or a payload of the wrong shape. */
  lemma CodeCellErrors(raw: CellRecord, notebookLanguage: Option<string>, cfg: Config)
    ensures var r := CodeCellElement(raw, notebookLanguage, cfg);
      r.Err? ==> r.error.UnknownOutputType? || r.error.PayloadShape?
  {
    var outs := CellOutputs(raw);
    var render := OutputRenderer(raw.promptNumber, cfg);
    var c := Collect(outs, render);
    if c.Err? {
      CollectErr(outs, render);
      var i :| 0 <= i < |outs| && render(outs[i]) == Err(c.error);
      var o := outs[i];
      assert render(o) == OutputElement(o.outputType, o, raw.promptNumber, cfg);
      OutputElementShape(o.outputType, o, raw.promptNumber, cfg);
      OutputBodyShape(o.outputType, o, cfg);
    }
  }

  /** A code cell renders when all its outputs do; its children are the
      rendered input followed by one rendered output per coalesced output,
      in order. */
  lemma CodeCellChildren(raw: CellRecord, notebookLanguage: Option<string>, cfg: Config)
    requires raw.cellType == "code"
    ensures var outs := CellOutputs(raw);
      var r := CellElement(raw, notebookLanguage, cfg);
      (r.Ok? <==> forall i :: 0 <= i < |outs| ==> OutputElement(outs[i].outputType, outs[i], raw.promptNumber, cfg).Ok?) &&
      (r.Ok? ==>
        |r.value.children| == 1 + |outs| &&
        r.value.children[0] == InputElement(raw.input, raw.promptNumber, notebookLanguage, raw.language, cfg.prefix) &&
        forall i :: 0 <= i < |outs| ==>
          OutputElement(outs[i].outputType, outs[i], raw.promptNumber, cfg) == Ok(r.value.children[1 + i]))
  {
    var outs := CellOutputs(raw);
    var render := OutputRenderer(raw.promptNumber, cfg);
    CollectOk(outs, render);
    assert forall i :: 0 <= i < |outs| ==> render(outs[i]) == OutputElement(outs[i].outputType, outs[i], raw.promptNumber, cfg);
  }

  /** A code cell with a non-empty input and no outputs renders as one code
      block holding the escaped input. */
  lemma CodeCellWithoutOutputs(raw: CellRecord, notebookLanguage: Option<string>, cfg: Config)
    requires raw.cellType == "code" && raw.input != [] && raw.outputs.GetOr([]) == []
    ensures var r := CellElement(raw, notebookLanguage, cfg);
      r.Ok? && |r.value.children| == 1 &&
      CodeOf(r.value.children[0]).innerHTML == EscapeHtml(Concat(raw.input))
  {
  }

  // ---------------------------------------------------------------------
  // Worksheets and the notebook

  function CellRenderer(notebookLanguage: Option<string>, cfg: Config): CellRecord -> Result<Element, RenderError>
  {
    (c: CellRecord) => CellElement(c, notebookLanguage, cfg)
  }

  /** `nb.Worksheet`'s `render`: a `div.worksheet` with one child per cell. */
  function WorksheetElement(raw: WorksheetRecord, notebookLanguage: Option<string>, cfg: Config): Result<Element, RenderError>
  {
    match Collect(raw.cells, CellRenderer(notebookLanguage, cfg))
    case Err(e) => Err(e)
    case Ok(els) => Ok(MakeElement("div", ["worksheet"], cfg.prefix).(children := els))
  }

  function WorksheetRenderer(notebookLanguage: Option<string>, cfg: Config): WorksheetRecord -> Result<Element, RenderError>
  {
    (w: WorksheetRecord) => WorksheetElement(w, notebookLanguage, cfg)
  }

  /** `nb.Notebook.prototype.render`: a `div.notebook` with one child per
      worksheet; code blocks take the notebook's language. */
  function NotebookElement(raw: NotebookRecord, cfg: Config): Result<Element, RenderError>
  {
    match Collect(raw.worksheets, WorksheetRenderer(raw.metadata.language, cfg))
    case Err(e) => Err(e)
    case Ok(els) => Ok(MakeElement("div", ["notebook"], cfg.prefix).(children := els))
  }

  /** A worksheet renders when all its cells do, with one child per cell, in
      order. */
  lemma WorksheetChildren(raw: WorksheetRecord, notebookLanguage: Option<string>, cfg: Config)
    ensures var r := WorksheetElement(raw, notebookLanguage, cfg);
      (r.Ok? <==> forall i :: 0 <= i < |raw.cells| ==> CellElement(raw.cells[i], notebookLanguage, cfg).Ok?) &&
      (r.Ok? ==>
        |r.value.children| == |raw.cells| &&
        forall i :: 0 <= i < |raw.cells| ==> CellElement(raw.cells[i], notebookLanguage, cfg) == Ok(r.value.children[i]))
  {
    var render := CellRenderer(notebookLanguage, cfg);
    CollectOk(raw.cells, render);
    assert forall i :: 0 <= i < |raw.cells| ==> render(raw.cells[i]) == CellElement(raw.cells[i], notebookLanguage, cfg);
  }

  /** A notebook renders when all its worksheets do, with one child per
      worksheet, in order. */
  lemma NotebookChildren(raw: NotebookRecord, cfg: Config)
    ensures var lang := raw.metadata.language;
      var r := NotebookElement(raw, cfg);
      (r.Ok? <==> forall i :: 0 <= i < |raw.worksheets| ==> WorksheetElement(raw.worksheets[i], lang, cfg).Ok?) &&
      (r.Ok? ==>
        |r.value.children| == |raw.worksheets| &&
        forall i :: 0 <= i < |raw.worksheets| ==> WorksheetElement(raw.worksheets[i], lang, cfg) == Ok(r.value.children[i]))
  {
    var render := WorksheetRenderer(raw.metadata.language, cfg);
    CollectOk(raw.worksheets, render);
    assert forall i :: 0 <= i < |raw.worksheets| ==>
      render(raw.worksheets[i]) == WorksheetElement(raw.worksheets[i], raw.metadata.language, cfg);
  }
}
