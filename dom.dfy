/**
 * The part of node-html-parser's element tree that the extractor touches: an element has a
 * tag, an id, a class attribute and the parsed list of class names (two separate pieces of
 * state, updated separately by the wrapper stripper), and child nodes that are elements or
 * text. `structure`, `innerHTML` and `text` are given concrete definitions after the
 * library's own getters.
 */
module Dom {
  import opened Wrappers
  import Js

  datatype Element = Element(
    tag: string,
    id: string,
    classAttr: Option<string>,
    classNames: seq<string>,
    childNodes: seq<Node>)

  datatype Node = ElementNode(element: Element) | TextNode(text: string)

  // ---------------------------------------------------------------------------
  // `structure`: one line per element (`tag#id.class1.class2`) and per text node that is not
  // white space (`#text`), indented by two spaces per level, lines joined by "\n".

  function Indent(depth: nat): string {
    if depth == 0 then "" else "  " + Indent(depth - 1)
  }

  /** The line `structure` writes for an element: its tag, `#id` when the id is set and
      `.class1.class2` when it has classes. */
  function Label(e: Element): string {
    e.tag
    + (if e.id != "" then "#" + e.id else "")
    + (if |e.classNames| > 0 then "." + Js.JoinWith(e.classNames, ".") else "")
  }

  predicate IsWhitespaceText(t: string) {
    forall k :: 0 <= k < |t| ==> Js.IsJsWhitespace(t[k])
  }

  function StructureLines(e: Element, depth: nat): seq<string>
    decreases e, |e.childNodes| + 1
  {
    [Indent(depth) + Label(e)] + ChildStructureLines(e, 0, depth + 1)
  }

  function ChildStructureLines(e: Element, i: nat, depth: nat): seq<string>
    requires i <= |e.childNodes|
    decreases e, |e.childNodes| - i
  {
    if i == |e.childNodes| then []
    else
      (match e.childNodes[i]
       case ElementNode(x) => StructureLines(x, depth)
       case TextNode(t) => if IsWhitespaceText(t) then [] else [Indent(depth) + "#text"])
      + ChildStructureLines(e, i + 1, depth)
  }

  /** `element.structure`. */
  function Structure(e: Element): (r: string)
    ensures |Label(e)| <= |r| && r[..|Label(e)|] == Label(e)
  {
    Js.JoinWithStartsWithFirst(StructureLines(e, 0), "\n");
    Js.JoinWith(StructureLines(e, 0), "\n")
  }

  /** A childless element without an id and with one class has the one-line structure
      `tag.class`. */
  lemma StructureOfClassedLeaf(e: Element)
    requires e.id == "" && e.childNodes == [] && |e.classNames| == 1
    ensures Structure(e) == e.tag + "." + e.classNames[0]
  {
    assert Js.JoinWith(e.classNames, ".") == e.classNames[0];
    assert Label(e) == e.tag + "." + e.classNames[0];
    assert ChildStructureLines(e, 0, 1) == [];
    assert StructureLines(e, 0) == [Indent(0) + Label(e)];
  }

  /** `structure` reads the tag, the id, the class names and the children, never the class
      attribute itself. */
  lemma StructureIgnoresClassAttr(e: Element, attr: Option<string>)
    ensures Structure(e.(classAttr := attr)) == Structure(e)
  {
    var e' := e.(classAttr := attr);
    assert Label(e') == Label(e);
    ChildStructureLinesIgnoreClassAttr(e, attr, 0, 1);
  }

  lemma {:induction false} ChildStructureLinesIgnoreClassAttr(e: Element, attr: Option<string>, i: nat, depth: nat)
    requires i <= |e.childNodes|
    ensures ChildStructureLines(e.(classAttr := attr), i, depth) == ChildStructureLines(e, i, depth)
    decreases |e.childNodes| - i
  {
    if i < |e.childNodes| {
      ChildStructureLinesIgnoreClassAttr(e, attr, i + 1, depth);
    }
  }

  // ---------------------------------------------------------------------------
  // Serialisation: `innerHTML` (the children's markup) and `text` (the text content).

  /** The attributes written into an opening tag; only `id` and `class` are modelled. */
  function Attributes(e: Element): string {
    (if e.id != "" then " id=\"" + e.id + "\"" else "")
    + (match e.classAttr case Some(c) => " class=\"" + c + "\"" case None => "")
  }

  /** `element.toString()`: the element's own markup. */
  function OuterHtml(e: Element): string
    decreases e, |e.childNodes| + 2
  {
    "<" + e.tag + Attributes(e) + ">" + InnerHtml(e) + "</" + e.tag + ">"
  }

  /** `element.innerHTML`: the concatenated markup of the child nodes. */
  function InnerHtml(e: Element): (r: string)
    ensures e.childNodes == [] ==> r == ""
    ensures |e.childNodes| == 1 && e.childNodes[0].TextNode? ==> r == e.childNodes[0].text
    ensures |e.childNodes| == 1 && e.childNodes[0].ElementNode? ==> r == OuterHtml(e.childNodes[0].element)
    decreases e, |e.childNodes| + 1
  {
    assert |e.childNodes| == 1 ==> ChildrenHtml(e, 1) == "";
    ChildrenHtml(e, 0)
  }

  function ChildrenHtml(e: Element, i: nat): string
    requires i <= |e.childNodes|
    decreases e, |e.childNodes| - i
  {
    if i == |e.childNodes| then ""
    else
      (match e.childNodes[i]
       case ElementNode(x) => OuterHtml(x)
       case TextNode(t) => t)
      + ChildrenHtml(e, i + 1)
  }

  /** `innerHTML` depends on the child nodes only. */
  lemma InnerHtmlOfChildren(e1: Element, e2: Element)
    requires e1.childNodes == e2.childNodes
    ensures InnerHtml(e1) == InnerHtml(e2)
  {
    ChildrenHtmlOfChildren(e1, e2, 0);
  }

  lemma {:induction false} ChildrenHtmlOfChildren(e1: Element, e2: Element, i: nat)
    requires e1.childNodes == e2.childNodes && i <= |e1.childNodes|
    ensures ChildrenHtml(e1, i) == ChildrenHtml(e2, i)
    decreases |e1.childNodes| - i
  {
    if i < |e1.childNodes| {
      ChildrenHtmlOfChildren(e1, e2, i + 1);
    }
  }

  /** `element.text`: the text content of the subtree. */
  function Text(e: Element): (r: string)
    ensures e.childNodes == [] ==> r == ""
    ensures |e.childNodes| == 1 && e.childNodes[0].TextNode? ==> r == e.childNodes[0].text
    ensures |e.childNodes| == 1 && e.childNodes[0].ElementNode? ==> r == Text(e.childNodes[0].element)
    decreases e, |e.childNodes| + 1
  {
    assert |e.childNodes| == 1 ==> ChildrenText(e, 1) == "";
    ChildrenText(e, 0)
  }

  function ChildrenText(e: Element, i: nat): string
    requires i <= |e.childNodes|
    decreases e, |e.childNodes| - i
  {
    if i == |e.childNodes| then ""
    else
      (match e.childNodes[i]
       case ElementNode(x) => Text(x)
       case TextNode(t) => t)
      + ChildrenText(e, i + 1)
  }

  // ---------------------------------------------------------------------------
  // Anchor ids

  /** The id attribute has the form `prefix` followed by one or more decimal digits, which is
      what the anchored pattern `^prefix(\d+)$` accepts. */
  predicate MatchesAnchor(prefix: string, id: string) {
    |id| > |prefix| && id[..|prefix|] == prefix && Js.AllDecimalDigits(id[|prefix|..])
  }

  /** `parseInt(id.replace(/^prefix(\d+)$/, "$1"))`: a matching id is reduced to its digits;
      a non-matching id is left as it is and handed to `parseInt` whole. `None` is NaN. */
  function AnchorId(prefix: string, id: string): (r: Option<int>)
    ensures MatchesAnchor(prefix, id) ==> r.Some? && r.value >= 0
    ensures !MatchesAnchor(prefix, id) && r.Some? ==> Js.TrimStart(id) != ""
  {
    if MatchesAnchor(prefix, id) then
      Js.ParseIntOfDigits(id[|prefix|..]);
      Js.ParseInt(id[|prefix|..])
    else Js.ParseInt(id)
  }

  /** The id written as `prefix` + the decimal digits of `n` reads back as `n`. */
  lemma AnchorIdRoundTrip(prefix: string, n: nat)
    ensures AnchorId(prefix, prefix + Js.NatToString(n)) == Some(n)
  {
    var id := prefix + Js.NatToString(n);
    assert id[..|prefix|] == prefix;
    assert id[|prefix|..] == Js.NatToString(n);
    Js.ParseIntNatToString(n);
  }

  /** Any matching id yields the decimal value of its digits, never NaN. */
  lemma AnchorIdOfMatch(prefix: string, id: string)
    requires MatchesAnchor(prefix, id)
    ensures forall k :: 0 <= k < |id[|prefix|..]| ==> Js.DigitValue(id[|prefix|..][k], 10).Some?
    ensures AnchorId(prefix, id) == Some(Js.DigitsValue(id[|prefix|..], 10))
  {
    Js.ParseIntOfDigits(id[|prefix|..]);
  }
}
