/** The document objects the renderer builds from a notebook record
    (`nb.Output`, `nb.Input`, `nb.Cell`, `nb.Worksheet`, `nb.Notebook`), the
    in-place stream coalescing pass, and the `render` methods that walk the
    objects and append the rendered children. */
module Document {
  import opened Wrappers
  import opened Text
  import opened Dom
  import opened Records
  import opened Streams
  import opened Render

  /** `nb.Output`: one output of a code cell. Its record is updated in
      place when the text of later outputs of the same stream is merged into
      it. */
  class Output {
    var raw: OutputRecord
    const outputType: string

    constructor (raw: OutputRecord)
      ensures this.raw == raw && outputType == raw.outputType
    {
      this.raw := raw;
      outputType := raw.outputType;
    }

    /** `nb.Output.prototype.render`: the body the output's type selects,
        wrapped in a `div.output` that carries the cell's prompt number. */
    method Render(prompt: Option<int>, cfg: Config) returns (r: Result<Element, RenderError>)
      ensures r == OutputElement(outputType, raw, prompt, cfg)
    {
      var outer := MakeElement("div", ["output"], cfg.prefix);
      if HasPrompt(prompt) {
        outer := SetAttribute(outer, PromptAttribute, IntToDecimal(prompt.value));
      }
      var inner := OutputBody(outputType, raw, cfg);
      if inner.Err? {
        return Err(inner.error);
      }
      outer := AppendChild(outer, inner.value);
      r := Ok(outer);
    }

    /** The type read at construction is still the record's type. */
    predicate Valid()
      reads this
    {
      outputType == raw.outputType
    }
  }

  /** The records the outputs currently hold. */
  function RawsOf(os: seq<Output>): (r: seq<OutputRecord>)
    reads os
    ensures |r| == |os| && forall k :: 0 <= k < |os| ==> r[k] == os[k].raw
  {
    seq(|os|, k requires 0 <= k < |os| reads os => os[k].raw)
  }

  /** No output object occurs twice. This is `Distinct` over objects,
      stated on `Output` itself so that the solver reasons about object
      identity without boxing. */
  predicate DistinctOutputs(os: seq<Output>)
  {
    forall j, k :: 0 <= j < k < |os| ==> os[j] != os[k]
  }

  /** `raw_outputs.map(o => new nb.Output(o, cell))`. */
  method WrapOutputs(records: seq<OutputRecord>) returns (os: seq<Output>)
    ensures fresh(set o | o in os) && DistinctOutputs(os)
    ensures RawsOf(os) == records
    ensures forall k :: 0 <= k < |os| ==> os[k].Valid()
  {
    os := [];
    var i := 0;
    while i < |records|
      invariant 0 <= i <= |records| && |os| == i
      invariant fresh(set o | o in os) && DistinctOutputs(os)
      invariant forall k :: 0 <= k < i ==> os[k].raw == records[k] && os[k].Valid()
    {
      var o := new Output(records[i]);
      os := os + [o];
      i := i + 1;
    }
  }

  /** The state of the coalescing pass after it has looked at the first `i`
      outputs: the kept outputs are distinct outputs seen so far, in order,
      and hold the records `CoalescedPrefix` gives for the records before
      the pass; the outputs not yet looked at are untouched. */
  ghost predicate CoalesceInv(outputs: seq<Output>, before: seq<OutputRecord>, i: nat,
                              result: seq<Output>, kept: seq<nat>, done: seq<OutputRecord>)
    reads outputs, result
  {
    && DistinctOutputs(outputs) && |before| == |outputs|
    && 1 <= i <= |outputs|
    && |kept| == |result| == |done| >= 1 && kept[0] == 0
    && (forall k :: 0 <= k < |kept| ==> kept[k] < i && result[k] == outputs[kept[k]])
    && (forall j, k :: 0 <= j < k < |kept| ==> kept[j] < kept[k])
    && (forall j :: 0 <= j < |outputs| ==> outputs[j].outputType == before[j].outputType)
    && (forall j :: i <= j < |outputs| ==> outputs[j].raw == before[j])
    && done == CoalescedPrefix(before, i)
    && (forall k :: 0 <= k < |result| ==> result[k].raw == done[k] && done[k].outputType == result[k].outputType)
  }

  /** The merge branch of the pass: the text of the next output is appended
      to the record of the last kept output. */
  method AbsorbNext(outputs: seq<Output>, ghost before: seq<OutputRecord>, i: nat,
                    result: seq<Output>, ghost kept: seq<nat>, ghost done: seq<OutputRecord>)
    returns (ghost done': seq<OutputRecord>)
    requires CoalesceInv(outputs, before, i, result, kept, done) && i < |outputs|
    requires Continues(result[|result| - 1].raw, outputs[i].raw)
    modifies result[|result| - 1]
    ensures result[|result| - 1].raw == Absorb(old(result[|result| - 1].raw), outputs[i].raw)
    ensures CoalesceInv(outputs, before, i + 1, result, kept, done')
  {
    var last, o := result[|result| - 1], outputs[i];
    var n := |result|;
    ghost var h := kept[n - 1];
    assert last == outputs[h] && h < i;
    assert o.raw == before[i] && last.raw == done[n - 1];
    done' := done[..n - 1] + [Absorb(last.raw, o.raw)];
    assert done' == CoalescedPrefix(before, i + 1) by {
      assert CoalescedPrefix(before, i + 1) == Push(done, before[i]);
    }
    assert forall k :: 0 <= k < n - 1 ==> result[k] != last by {
      forall k | 0 <= k < n - 1 ensures result[k] != last {
        assert kept[k] < h;
      }
    }
    assert forall j :: i < j < |outputs| ==> outputs[j] != last;
    last.raw := Absorb(last.raw, o.raw);
  }

  /** The keep branch of the pass: the next output is kept and heads the
      next run. */
  lemma KeepNext(outputs: seq<Output>, before: seq<OutputRecord>, i: nat,
                 result: seq<Output>, kept: seq<nat>, done: seq<OutputRecord>)
    requires CoalesceInv(outputs, before, i, result, kept, done) && i < |outputs|
    requires !Continues(result[|result| - 1].raw, outputs[i].raw)
    ensures CoalesceInv(outputs, before, i + 1, result + [outputs[i]], kept + [i], done + [outputs[i].raw])
  {
    assert outputs[i].raw == before[i] && result[|result| - 1].raw == done[|done| - 1];
  }

  /** `result` is the subsequence of `outputs` at the strictly increasing
      positions `kept`, which start at the first output. */
  ghost predicate KeptAt(result: seq<Output>, outputs: seq<Output>, kept: seq<nat>)
  {
    && |kept| == |result|
    && (forall k :: 0 <= k < |kept| ==> kept[k] < |outputs| && result[k] == outputs[kept[k]])
    && (forall j, k :: 0 <= j < k < |kept| ==> kept[j] < kept[k])
    && (outputs != [] ==> |kept| > 0 && kept[0] == 0)
  }

  /** The callback of the pass for the output at position `i`: merged into
      `last` when it continues `last`'s run, kept and made `last`
      otherwise. */
  method CoalesceStep(outputs: seq<Output>, ghost before: seq<OutputRecord>, i: nat,
                      result: seq<Output>, ghost kept: seq<nat>, ghost done: seq<OutputRecord>, last: Output)
    returns (result': seq<Output>, ghost kept': seq<nat>, ghost done': seq<OutputRecord>, last': Output)
    requires CoalesceInv(outputs, before, i, result, kept, done) && i < |outputs|
    requires last == result[|result| - 1]
    modifies outputs
    ensures CoalesceInv(outputs, before, i + 1, result', kept', done')
    ensures last' == result'[|result'| - 1]
  {
    var o := outputs[i];
    if o.raw.outputType == "stream" && last.raw.outputType == "stream" && o.raw.stream == last.raw.stream {
      assert last == outputs[kept[|kept| - 1]];
      done' := AbsorbNext(outputs, before, i, result, kept, done);
      result', kept', last' := result, kept, last;
    } else {
      KeepNext(outputs, before, i, result, kept, done);
      result', kept', done', last' := result + [o], kept + [i], done + [o.raw], o;
    }
  }

  /** The state of the pass once it has kept the first output. */
  lemma CoalesceStart(outputs: seq<Output>, before: seq<OutputRecord>)
    requires DistinctOutputs(outputs) && outputs != [] && before == RawsOf(outputs)
    requires forall j :: 0 <= j < |outputs| ==> outputs[j].Valid()
    ensures CoalesceInv(outputs, before, 1, [outputs[0]], [0], [before[0]])
  {
    assert CoalescedPrefix(before, 0) == [];
  }

  /** What the state says once the pass has looked at every output. */
  lemma CoalesceEnd(outputs: seq<Output>, before: seq<OutputRecord>,
                    result: seq<Output>, kept: seq<nat>, done: seq<OutputRecord>)
    requires CoalesceInv(outputs, before, |outputs|, result, kept, done)
    ensures RawsOf(result) == Coalesced(before)
    ensures forall k :: 0 <= k < |result| ==> result[k].Valid()
    ensures KeptAt(result, outputs, kept)
  {
    CoalescedPrefixIsCoalesced(before, |before|);
    assert before[..|before|] == before;
  }

  /** `nb.coalesceStreams`: one pass from left to right. An output that
      continues the run of the last kept output has its text appended to
      that output's record and is dropped; any other output is kept and
      heads the next run. The result is the kept outputs, in order, and
      their records are what `Coalesced` gives for the records before the
      pass. */
  method CoalesceStreams(outputs: seq<Output>) returns (result: seq<Output>, ghost kept: seq<nat>)
    requires DistinctOutputs(outputs)
    requires forall j :: 0 <= j < |outputs| ==> outputs[j].Valid()
    modifies outputs
    ensures RawsOf(result) == Coalesced(old(RawsOf(outputs)))
    ensures forall k :: 0 <= k < |result| ==> result[k].Valid()
    ensures KeptAt(result, outputs, kept)
  {
    if |outputs| == 0 {
      return [], [];
    }
    ghost var before := RawsOf(outputs);
    var last := outputs[0];
    result, kept := [last], [0];
    ghost var done := [before[0]];
    CoalesceStart(outputs, before);
    var i := 1;
    while i < |outputs|
      invariant CoalesceInv(outputs, before, i, result, kept, done)
      invariant last == result[|result| - 1]
    {
      result, kept, done, last := CoalesceStep(outputs, before, i, result, kept, done, last);
      i := i + 1;
    }
    CoalesceEnd(outputs, before, result, kept, done);
  }

  /** `nb.Input`: the source lines of a code cell. */
  class Input {
    const raw: seq<string>

    constructor (raw: seq<string>)
      ensures this.raw == raw
    {
      this.raw := raw;
    }
  }

  /** `nb.Cell`: a cell record with, for code cells only, its input and its
      coalesced outputs. */
  class Cell {
    const raw: CellRecord
    const cellType: string
    const input: Input?
    const outputs: Option<seq<Output>>

    ghost function Repr(): set<object>
    {
      if outputs.Some? then set o: object | o in outputs.value else {}
    }

    /** Input and outputs exist exactly for code cells; the outputs hold the
        coalesced records of the cell's raw outputs. */
    ghost predicate Valid()
      reads Repr()
    {
      && cellType == raw.cellType
      && (input != null <==> cellType == "code")
      && (outputs.Some? <==> cellType == "code")
      && (input != null ==> input.raw == raw.input)
      && (outputs.Some? ==>
            (forall k :: 0 <= k < |outputs.value| ==> outputs.value[k].Valid()) &&
            RawsOf(outputs.value) == CellOutputs(raw))
    }

    constructor (raw: CellRecord)
      ensures this.raw == raw && Valid()
    {
      this.raw := raw;
      cellType := raw.cellType;
      if raw.cellType == "code" {
        input := new Input(raw.input);
        var wrapped := WrapOutputs(raw.outputs.GetOr([]));
        var coalesced, _ := CoalesceStreams(wrapped);
        outputs := Some(coalesced);
      } else {
        input := null;
        outputs := None;
      }
    }

    /** `nb.Cell.prototype.render`. */
    method Render(notebookLanguage: Option<string>, cfg: Config) returns (r: Result<Element, RenderError>)
      requires Valid()
      ensures r == CellElement(raw, notebookLanguage, cfg)
    {
      if cellType == "markdown" {
        r := Ok(MarkdownCellElement(raw, cfg));
      } else if cellType == "heading" {
        r := Ok(HeadingCellElement(raw, cfg));
      } else if cellType == "code" {
        r := RenderCode(notebookLanguage, cfg);
      } else {
        r := Err(UnknownCellType(cellType));
      }
    }

    /** `renderers.code`: appends the rendered input, then each rendered
        output in order; a failing output aborts the cell. */
    method RenderCode(notebookLanguage: Option<string>, cfg: Config) returns (r: Result<Element, RenderError>)
      requires Valid() && cellType == "code"
      ensures r == CodeCellElement(raw, notebookLanguage, cfg)
    {
      var cellEl := MakeElement("div", ["cell", "code-cell"], cfg.prefix);
      var inputEl := InputElement(input.raw, raw.promptNumber, notebookLanguage, raw.language, cfg.prefix);
      cellEl := AppendChild(cellEl, inputEl);
      assert cellEl.children == [inputEl];
      assert RawsOf(outputs.value) == CellOutputs(raw);
      r := AppendOutputs(cellEl, outputs.value, raw.promptNumber, cfg);
    }
  }

  /** The `forEach` of `renderers.code`: appends each output's rendering to
      `el`, in order, and fails with the first output that fails. */
  method AppendOutputs(el: Element, outs: seq<Output>, prompt: Option<int>, cfg: Config)
    returns (r: Result<Element, RenderError>)
    requires forall k :: 0 <= k < |outs| ==> outs[k].Valid()
    ensures r == match Collect(RawsOf(outs), OutputRenderer(prompt, cfg))
                 case Err(e) => Err(e)
                 case Ok(els) => Ok(el.(children := el.children + els))
  {
    ghost var records := RawsOf(outs);
    ghost var render := OutputRenderer(prompt, cfg);
    var acc := el;
    var k := 0;
    while k < |outs|
      invariant 0 <= k <= |outs|
      invariant Collect(records[..k], render).Ok?
      invariant acc == el.(children := el.children + Collect(records[..k], render).value)
    {
      var rendered := outs[k].Render(prompt, cfg);
      CollectNext(records, k, render, rendered);
      if rendered.Err? {
        return Err(rendered.error);
      }
      acc := AppendChild(acc, rendered.value);
      k := k + 1;
    }
    assert records[..k] == records;
    r := Ok(acc);
  }

  /** `nb.Worksheet`: its cells, one per cell record. */
  class Worksheet {
    const raw: WorksheetRecord
    const cells: seq<Cell>

    ghost function Repr(): set<object>
    {
      set c, o | c in cells && o in c.Repr() :: o
    }

    ghost predicate Valid()
      reads Repr()
    {
      && |cells| == |raw.cells|
      && forall i :: 0 <= i < |cells| ==> cells[i].raw == raw.cells[i] && cells[i].Valid()
    }

    constructor (raw: WorksheetRecord)
      ensures this.raw == raw && Valid()
    {
      this.raw := raw;
      var built: seq<Cell> := [];
      var i := 0;
      while i < |raw.cells|
        invariant 0 <= i <= |raw.cells| && |built| == i
        invariant forall k :: 0 <= k < i ==> built[k].raw == raw.cells[k] && built[k].Valid()
      {
        var c := new Cell(raw.cells[i]);
        built := built + [c];
        i := i + 1;
      }
      cells := built;
    }

    /** The worksheet's `render`: appends each rendered cell in order; a
        failing cell aborts the worksheet. */
    method Render(notebookLanguage: Option<string>, cfg: Config) returns (r: Result<Element, RenderError>)
      requires Valid()
      ensures r == WorksheetElement(raw, notebookLanguage, cfg)
    {
      var el := MakeElement("div", ["worksheet"], cfg.prefix);
      ghost var render := CellRenderer(notebookLanguage, cfg);
      var k := 0;
      while k < |cells|
        invariant 0 <= k <= |cells|
        invariant Collect(raw.cells[..k], render).Ok?
        invariant el == MakeElement("div", ["worksheet"], cfg.prefix).(children := Collect(raw.cells[..k], render).value)
      {
        var rendered := cells[k].Render(notebookLanguage, cfg);
        CollectStep(raw.cells, k, render);
        if rendered.Err? {
          CollectFailedPrefix(raw.cells, k + 1, render);
          return Err(rendered.error);
        }
        el := AppendChild(el, rendered.value);
        k := k + 1;
      }
      assert raw.cells[..k] == raw.cells;
      r := Ok(el);
    }
  }

  /** `nb.Notebook`: the metadata, the title, the worksheets and the first
      worksheet as `sheet`. */
  class Notebook {
    const raw: NotebookRecord
    const metadata: Metadata
    const title: Option<string>
    const worksheets: seq<Worksheet>
    const sheet: Worksheet?

    ghost function Repr(): set<object>
    {
      set w, o | w in worksheets && o in w.Repr() :: o
    }

    ghost predicate Valid()
      reads Repr()
    {
      && metadata == raw.metadata
      && |worksheets| == |raw.worksheets|
      && forall i :: 0 <= i < |worksheets| ==> worksheets[i].raw == raw.worksheets[i] && worksheets[i].Valid()
    }

    constructor (raw: NotebookRecord)
      ensures this.raw == raw && Valid()
      ensures IsTruthy(raw.metadata.title) ==> title == raw.metadata.title
      ensures !IsTruthy(raw.metadata.title) ==> title == raw.metadata.name
      ensures sheet == if worksheets == [] then null else worksheets[0]
    {
      this.raw := raw;
      metadata := raw.metadata;
      title := Or(raw.metadata.title, raw.metadata.name);
      var built: seq<Worksheet> := [];
      var i := 0;
      while i < |raw.worksheets|
        invariant 0 <= i <= |raw.worksheets| && |built| == i
        invariant forall k :: 0 <= k < i ==> built[k].raw == raw.worksheets[k] && built[k].Valid()
      {
        var w := new Worksheet(raw.worksheets[i]);
        built := built + [w];
        i := i + 1;
      }
      worksheets := built;
      sheet := if built == [] then null else built[0];
    }

    /** `nb.Notebook.prototype.render`: appends each rendered worksheet in
        order; code blocks take the notebook's language. */
    method Render(cfg: Config) returns (r: Result<Element, RenderError>)
      requires Valid()
      ensures r == NotebookElement(raw, cfg)
    {
      var el := MakeElement("div", ["notebook"], cfg.prefix);
      ghost var render := WorksheetRenderer(metadata.language, cfg);
      var k := 0;
      while k < |worksheets|
        invariant 0 <= k <= |worksheets|
        invariant Collect(raw.worksheets[..k], render).Ok?
        invariant el == MakeElement("div", ["notebook"], cfg.prefix).(children := Collect(raw.worksheets[..k], render).value)
      {
        var rendered := worksheets[k].Render(metadata.language, cfg);
        CollectStep(raw.worksheets, k, render);
        if rendered.Err? {
          CollectFailedPrefix(raw.worksheets, k + 1, render);
          return Err(rendered.error);
        }
        el := AppendChild(el, rendered.value);
        k := k + 1;
      }
      assert raw.worksheets[..k] == raw.worksheets;
      r := Ok(el);
    }
  }

  /** `nb.parse`: builds the document objects of a notebook record. */
  method Parse(nbjson: NotebookRecord) returns (notebook: Notebook)
    ensures fresh(notebook) && notebook.raw == nbjson && notebook.Valid()
  {
    notebook := new Notebook(nbjson);
  }
}
