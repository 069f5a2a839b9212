/** Rendering of multi-format outputs (`display_data`, `pyout`): the fixed
    format priority, the choice of the first present format, and one
    renderer per format. */
module Display {
  import opened Wrappers
  import opened Text
  import opened Dom
  import opened Records

  datatype Format = Png | Jpeg | Svg | Html | Latex | Javascript | PlainText {
    /** The key of the format in an output record. */
    function Name(): string
    {
      match this
      case Png => "png"
      case Jpeg => "jpeg"
      case Svg => "svg"
      case Html => "html"
      case Latex => "latex"
      case Javascript => "javascript"
      case PlainText => "text"
    }
  }

  /** `nb.display_priority`: richer formats before plain text. */
  const DisplayPriority: seq<Format> := [Png, Jpeg, Svg, Html, Latex, Javascript, PlainText]

  /** The record has a truthy payload under the format's key. */
  predicate Present(data: map<string, Payload>, f: Format)
  {
    f.Name() in data && IsTruthyPayload(data[f.Name()])
  }

  /** `fs.filter(d => o.raw[d])`. */
  function PresentFormats(fs: seq<Format>, data: map<string, Payload>): (r: seq<Format>)
    ensures |r| <= |fs|
    ensures forall k :: 0 <= k < |r| ==> r[k] in fs && Present(data, r[k])
  {
    if fs == [] then []
    else if Present(data, fs[0]) then [fs[0]] + PresentFormats(fs[1..], data)
    else PresentFormats(fs[1..], data)
  }

  /** `formats[0]`, absent when the filtered list is empty. */
  function ChosenFormat(data: map<string, Payload>): Option<Format>
  {
    var formats := PresentFormats(DisplayPriority, data);
    if formats == [] then None else Some(formats[0])
  }

  lemma {:induction false} PresentFormatsEmpty(fs: seq<Format>, data: map<string, Payload>)
    ensures PresentFormats(fs, data) == [] <==> forall j :: 0 <= j < |fs| ==> !Present(data, fs[j])
  {
    if fs != [] {
      PresentFormatsEmpty(fs[1..], data);
      assert forall j :: 1 <= j < |fs| ==> fs[j] == fs[1..][j - 1];
    }
  }

  lemma {:induction false} PresentFormatsHead(fs: seq<Format>, data: map<string, Payload>, i: nat)
    requires i < |fs| && Distinct(fs)
    ensures (PresentFormats(fs, data) != [] && PresentFormats(fs, data)[0] == fs[i])
        <==> (Present(data, fs[i]) && forall j :: 0 <= j < i ==> !Present(data, fs[j]))
  {
    var tail := fs[1..];
    assert Distinct(tail) by {
      forall j, k | 0 <= j < k < |tail| ensures tail[j] != tail[k] {
        assert tail[j] == fs[j + 1] && tail[k] == fs[k + 1];
      }
    }
    if i == 0 {
      if !Present(data, fs[0]) {
        var rest := PresentFormats(tail, data);
        if rest != [] {
          assert rest[0] in tail;
          assert forall k :: 0 <= k < |tail| ==> tail[k] == fs[k + 1] != fs[0];
        }
      }
    } else {
      if !Present(data, fs[0]) {
        PresentFormatsHead(tail, data, i - 1);
        assert tail[i - 1] == fs[i];
        assert forall j :: 0 < j < i ==> fs[j] == tail[j - 1];
      } else {
        assert fs[0] != fs[i];
      }
    }
  }

  /** The filter drops no present format. */
  lemma {:induction false} PresentFormatsComplete(fs: seq<Format>, data: map<string, Payload>)
    ensures forall j :: 0 <= j < |fs| && Present(data, fs[j]) ==> fs[j] in PresentFormats(fs, data)
  {
    if fs != [] {
      PresentFormatsComplete(fs[1..], data);
      assert forall j :: 1 <= j < |fs| ==> fs[j] == fs[1..][j - 1];
    }
  }

  /** `xs` is `ys` with some elements left out, the rest kept in order. */
  predicate IsSubsequence(xs: seq<Format>, ys: seq<Format>)
    decreases |ys|
  {
    xs == [] ||
    (ys != [] && ((xs[0] == ys[0] && IsSubsequence(xs[1..], ys[1..])) || IsSubsequence(xs, ys[1..])))
  }

  /** The filter keeps the list's order: its result is a subsequence of
      the list. */
  lemma {:induction false} PresentFormatsIsSubsequence(fs: seq<Format>, data: map<string, Payload>)
    ensures IsSubsequence(PresentFormats(fs, data), fs)
  {
    if fs != [] {
      var r, rest := PresentFormats(fs, data), PresentFormats(fs[1..], data);
      PresentFormatsIsSubsequence(fs[1..], data);
      if Present(data, fs[0]) {
        assert r[0] == fs[0] && r[1..] == rest;
      }
    }
  }

  /** In a list without repeats, a format is chosen exactly when one is
      present, and the one chosen is at position `i` exactly when it is
      present and nothing before it is. */
  lemma FirstPresentFormat(fs: seq<Format>, data: map<string, Payload>)
    requires Distinct(fs)
    ensures PresentFormats(fs, data) == [] <==> forall j :: 0 <= j < |fs| ==> !Present(data, fs[j])
    ensures forall i :: 0 <= i < |fs| ==>
      ((PresentFormats(fs, data) != [] && PresentFormats(fs, data)[0] == fs[i])
        <==> (Present(data, fs[i]) && forall j :: 0 <= j < i ==> !Present(data, fs[j])))
  {
    PresentFormatsEmpty(fs, data);
    forall i | 0 <= i < |fs|
      ensures (PresentFormats(fs, data) != [] && PresentFormats(fs, data)[0] == fs[i])
        <==> (Present(data, fs[i]) && forall j :: 0 <= j < i ==> !Present(data, fs[j]))
    {
      PresentFormatsHead(fs, data, i);
    }
  }

  /** The chosen format is the earliest format of the priority list that is
      present in the record, and a format is chosen exactly when one is
      present. */
  lemma ChosenFormatIsEarliestPresent(data: map<string, Payload>)
    ensures ChosenFormat(data).None? <==> forall j :: 0 <= j < |DisplayPriority| ==> !Present(data, DisplayPriority[j])
    ensures forall i :: 0 <= i < |DisplayPriority| ==>
      (ChosenFormat(data) == Some(DisplayPriority[i]) <==>
        Present(data, DisplayPriority[i]) && forall j :: 0 <= j < i ==> !Present(data, DisplayPriority[j]))
  {
    assert Distinct(DisplayPriority);
    FirstPresentFormat(DisplayPriority, data);
  }

  /** The formats of the priority list present in a record. */
  function PresentSet(data: map<string, Payload>): set<Format>
  {
    set f | f in DisplayPriority && Present(data, f)
  }

  lemma {:induction false} PresentFormatsAgree(fs: seq<Format>, a: map<string, Payload>, b: map<string, Payload>)
    requires forall k :: 0 <= k < |fs| ==> (Present(a, fs[k]) <==> Present(b, fs[k]))
    ensures PresentFormats(fs, a) == PresentFormats(fs, b)
  {
    if fs != [] {
      PresentFormatsAgree(fs[1..], a, b);
    }
  }

  /** Two records with the same present formats choose the same format. */
  lemma ChoiceDependsOnPresentSet(a: map<string, Payload>, b: map<string, Payload>)
    requires PresentSet(a) == PresentSet(b)
    ensures ChosenFormat(a) == ChosenFormat(b)
  {
    forall k | 0 <= k < |DisplayPriority|
      ensures Present(a, DisplayPriority[k]) <==> Present(b, DisplayPriority[k])
    {
      var f := DisplayPriority[k];
      assert Present(a, f) <==> f in PresentSet(a);
      assert Present(b, f) <==> f in PresentSet(b);
    }
    PresentFormatsAgree(DisplayPriority, a, b);
  }

  // ---------------------------------------------------------------------
  // Per-format renderers (`nb.display.*`)

  /** `imageCreator(format)`'s source address: a base64 data URI of the
      image media type, with the newlines of the payload removed. */
  function ImageSrc(format: string, payload: string): string
  {
    "data:image/" + format + ";base64," + RemoveNewlines(payload)
  }

  /** The address is the data-URI header for the format followed by the
      payload without its newlines: no newline is left, and a payload
      without newlines is kept as it is. */
  lemma ImageSrcShape(format: string, payload: string)
    ensures var header := "data:image/" + format + ";base64,";
      var r := ImageSrc(format, payload);
      |r| >= |header| && r[..|header|] == header &&
      '\n' !in r[|header|..] &&
      (forall i :: |header| <= i < |r| ==> r[i] in payload) &&
      ('\n' !in payload ==> r[|header|..] == payload)
  {
    var header := "data:image/" + format + ";base64,";
    var r := ImageSrc(format, payload);
    assert r[|header|..] == RemoveNewlines(payload);
    assert forall i :: |header| <= i < |r| ==> r[i] == r[|header|..][i - |header|];
    if '\n' !in payload { RemoveNewlinesOfFlat(payload); }
  }

  /** A base64 payload wrapped into lines gives the data-URI header followed
      by the lines, concatenated in order. */
  lemma ImageSrcOfLines(format: string, lines: seq<string>)
    requires forall i :: 0 <= i < |lines| ==> '\n' !in lines[i]
    ensures ImageSrc(format, JoinWith("\n", lines)) == "data:image/" + format + ";base64," + Concat(lines)
  {
    RemoveNewlinesOfLines(lines);
  }

  /** What assigning a payload to `innerHTML` stores: a string as it is, a
      list as its elements joined with commas. */
  function MarkupOf(p: Payload): string
  {
    match p
    case Str(s) => s
    case Lines(lines) => JoinWith(",", lines)
  }

  /** The renderer of one format applied to its payload. Image payloads must
      be strings and line-based payloads lists, or the JavaScript call on
      them fails. */
  function Render(f: Format, payload: Payload, prefix: string): Result<Element, RenderError>
  {
    match f
    case Png | Jpeg =>
      if payload.Str? then
        Ok(SetAttribute(MakeElement("img", ["image-output"], prefix), "src", ImageSrc(f.Name(), payload.s)))
      else Err(PayloadShape(f.Name()))
    case Svg | Html | Latex =>
      if payload.Lines? then
        Ok(SetContent(MakeElement("div", [f.Name() + "-output"], prefix), Concat(payload.lines)))
      else Err(PayloadShape(f.Name()))
    case PlainText =>
      if payload.Lines? then
        Ok(SetContent(MakeElement("pre", ["text-output"], prefix), EscapeHtml(Concat(payload.lines))))
      else Err(PayloadShape(f.Name()))
    case Javascript =>
      Ok(SetContent(MakeElement("script", [], prefix), MarkupOf(payload)))
  }

  /** A renderer fails exactly on a payload of the wrong shape; otherwise
      images become `img` elements whose source is the data URI, the markup
      formats are inserted as they are, plain text is escaped, and
      javascript goes into a `script` element. */
  lemma RenderShape(f: Format, payload: Payload, prefix: string)
    ensures var r := Render(f, payload, prefix);
      (r.Ok? <==> (f in {Png, Jpeg} ==> payload.Str?) && (f in {Svg, Html, Latex, PlainText} ==> payload.Lines?)) &&
      (r.Ok? ==> r.value.children == []) &&
      (r.Ok? && f in {Png, Jpeg} ==>
        r.value.tag == "img" && r.value.innerHTML == "" &&
        r.value.attributes == map["src" := ImageSrc(f.Name(), payload.s)]) &&
      (r.Ok? && f in {Svg, Html, Latex} ==>
        r.value.tag == "div" && r.value.innerHTML == Concat(payload.lines)) &&
      (r.Ok? && f == PlainText ==>
        r.value.tag == "pre" && r.value.innerHTML == EscapeHtml(Concat(payload.lines))) &&
      (r.Ok? && f == Javascript ==> r.value.tag == "script" && r.value.innerHTML == MarkupOf(payload))
  {
  }

  /** The renderers as written: the javascript one assigns to an undefined
      `script` and throws before returning its element. */
  function RenderAsWritten(f: Format, payload: Payload, prefix: string): Result<Element, RenderError>
  {
    if f == Javascript then Err(ScriptUndefined) else Render(f, payload, prefix)
  }

  /** As written, a record whose best format is javascript fails to render,
      even when it also carries plain text; the corrected renderer produces
      a script element holding the payload. */
  lemma JavascriptRendererThrows(data: map<string, Payload>, prefix: string)
    requires ChosenFormat(data) == Some(Javascript)
    ensures RenderAsWritten(Javascript, data["javascript"], prefix) == Err(ScriptUndefined)
    ensures Render(Javascript, data["javascript"], prefix).Ok?
  {
    ChosenFormatIsEarliestPresent(data);
    assert DisplayPriority[5] == Javascript;
  }

  /** Plain-text output is escaped: no angle bracket reaches the markup, and
      for text without `&` decoding the entities gives the text back. */
  lemma PlainTextIsEscaped(lines: seq<string>, prefix: string)
    ensures Render(PlainText, Lines(lines), prefix).Ok?
    ensures var markup := Render(PlainText, Lines(lines), prefix).value.innerHTML;
      '<' !in markup && '>' !in markup &&
      ('&' !in Concat(lines) ==> UnescapeHtml(markup) == Concat(lines))
  {
    var text := Concat(lines);
    if '&' !in text { UnescapeEscapeHtml(text); }
  }

  /** `render_display_data`: the renderer of the chosen format, or an
      `empty-output` element when no format is present. */
  function RenderDisplayData(data: map<string, Payload>, prefix: string): Result<Element, RenderError>
  {
    match ChosenFormat(data)
    case None => Ok(MakeElement("div", ["empty-output"], prefix))
    case Some(f) => Render(f, data[f.Name()], prefix)
  }

  /** A record is rendered with its highest-priority present format, and a
      record with none of the formats becomes the `empty-output` element. */
  lemma RenderDisplayDataUsesPriority(data: map<string, Payload>, prefix: string)
    ensures (forall j :: 0 <= j < |DisplayPriority| ==> !Present(data, DisplayPriority[j])) ==>
      RenderDisplayData(data, prefix) == Ok(MakeElement("div", ["empty-output"], prefix))
    ensures forall i :: (0 <= i < |DisplayPriority| && Present(data, DisplayPriority[i]) &&
      (forall j :: 0 <= j < i ==> !Present(data, DisplayPriority[j]))) ==>
      RenderDisplayData(data, prefix) == Render(DisplayPriority[i], data[DisplayPriority[i].Name()], prefix)
  {
    ChosenFormatIsEarliestPresent(data);
  }

  /** A record holding both a png image and text renders as an image. */
  lemma PngWinsOverText(data: map<string, Payload>, prefix: string)
    requires Present(data, Png) && Present(data, PlainText)
    ensures RenderDisplayData(data, prefix).Ok? ==> RenderDisplayData(data, prefix).value.tag == "img"
  {
    RenderDisplayDataUsesPriority(data, prefix);
    assert DisplayPriority[0] == Png;
  }
}
