/** The host document, reduced to the element tree the renderer builds, and
    the renderer's configuration. */
module Dom {
  import opened Text

  /** A markup element: its tag, its class attribute, its other attributes,
      the markup assigned to its content, and the children appended to it. */
  datatype Element = Element(
    tag: string,
    className: string,
    attributes: map<string, string>,
    innerHTML: string,
    children: seq<Element>)

  /** The class prefix and the two optional converters: markdown to markup
      and ANSI escapes to markup. */
  datatype Config = Config(prefix: string, markdown: string -> string, ansi: string -> string)

  /** Without a markdown or ANSI library the converters are the identity. */
  function Identity(s: string): string { s }

  const DefaultPrefix: string := "nb-"

  const DefaultConfig: Config := Config(DefaultPrefix, Identity, Identity)

  /** Each class name with the prefix in front. */
  function Prefixed(prefix: string, names: seq<string>): (r: seq<string>)
    ensures |r| == |names|
    ensures forall i :: 0 <= i < |names| ==> r[i] == prefix + names[i]
  {
    if names == [] then [] else [prefix + names[0]] + Prefixed(prefix, names[1..])
  }

  /** The class attribute `makeElement` writes: the prefixed names joined by
      single spaces. */
  function ClassName(prefix: string, names: seq<string>): string
  {
    JoinWith(" ", Prefixed(prefix, names))
  }

  /** `makeElement(tag, classNames)`; an absent class list is `[]`. */
  function MakeElement(tag: string, names: seq<string>, prefix: string): Element
  {
    Element(tag, ClassName(prefix, names), map[], "", [])
  }

  /** An absent or empty class list gives an empty class attribute. */
  lemma ClassNameOfNone(prefix: string)
    ensures ClassName(prefix, []) == ""
  {
  }

  /** The class list the host reads from the attribute is each class name
      with the prefix in front, in the given order. */
  lemma ClassListOfElement(tag: string, names: seq<string>, prefix: string)
    requires ' ' !in prefix
    requires forall i :: 0 <= i < |names| ==> ' ' !in names[i] && prefix + names[i] != ""
    ensures Tokens(MakeElement(tag, names, prefix).className) == Prefixed(prefix, names)
  {
    var ps := Prefixed(prefix, names);
    forall i | 0 <= i < |ps|
      ensures ps[i] != "" && ' ' !in ps[i]
    {
      assert ps[i] == prefix + names[i];
    }
    TokensOfJoin(ps);
  }

  /** `el.setAttribute(key, value)`. */
  function SetAttribute(el: Element, key: string, value: string): Element
  {
    el.(attributes := el.attributes[key := value])
  }

  /** `el.innerHTML = markup`. */
  function SetContent(el: Element, markup: string): Element
  {
    el.(innerHTML := markup)
  }

  /** `el.appendChild(child)`. */
  function AppendChild(el: Element, child: Element): Element
  {
    el.(children := el.children + [child])
  }
}
