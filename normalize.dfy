/**
 * The wrapper stripper of the course-page extractor (`removeNestedWrapperElements` and its
 * `no-overflow` instance). An element whose only class is the marker, or whose structure
 * mentions the marker, is a wrapper candidate: if it has a single child whose structure also
 * mentions the marker, the stripper descends into that child; otherwise it strips the marker
 * from the element's classes and returns the element.
 *
 * `RemoveNestedWrapperElements` is the code as written, which rewrites the class attribute
 * with `String.replace`. `StripNestedWrappers` is the corrected stripper that the extractor
 * uses; the two differ only in the class attribute of the element they return, so every
 * `innerHTML` the extractor reads is the same for both.
 */
module Normalize {
  import opened Wrappers
  import Js
  import opened Dom

  /** The marker class of Moodle's formatted-text wrappers. */
  const NoOverflow: string := "no-overflow"

  /** The guard of the stripper: exactly one class, and the structure mentions the marker. */
  predicate IsWrapperCandidate(e: Element, className: string) {
    |e.classNames| == 1 && Js.Includes(Structure(e), className)
  }

  /** The inner guard: a single child node, which is an element whose structure mentions the
      marker (a text child has no `structure`, so the optional chain yields undefined). */
  predicate WrapsSingleCandidate(e: Element, className: string) {
    |e.childNodes| == 1 && e.childNodes[0].ElementNode?
    && Js.Includes(Structure(e.childNodes[0].element), className)
  }

  /** The element the stripper's descent stops at. */
  function Innermost(e: Element, className: string): (r: Element)
    ensures !(IsWrapperCandidate(r, className) && WrapsSingleCandidate(r, className))
    decreases e
  {
    if IsWrapperCandidate(e, className) && WrapsSingleCandidate(e, className)
    then Innermost(e.childNodes[0].element, className)
    else e
  }

  // ---------------------------------------------------------------------------
  // As written

  /** One step of `removeNestedWrapperElements` on a present element, as the code is written:
      the class attribute is rewritten with `getAttribute("class")?.replace(className, "") ?? ""`
      and the class list is filtered. */
  function StripAsWritten(e: Element, className: string): (r: Element)
    ensures !IsWrapperCandidate(e, className) ==> r == e
    ensures IsWrapperCandidate(e, className) && !WrapsSingleCandidate(e, className) ==>
      r.tag == e.tag && r.id == e.id && r.childNodes == e.childNodes
      && r.classNames == Js.FilterOut(e.classNames, className)
    decreases e
  {
    if IsWrapperCandidate(e, className) then
      if WrapsSingleCandidate(e, className) then StripAsWritten(e.childNodes[0].element, className)
      else
        var attr := match e.classAttr
                    case Some(a) => Js.ReplaceFirst(a, className, "")
                    case None => "";
        e.(classAttr := Some(attr), classNames := Js.FilterOut(e.classNames, className))
    else e
  }

  /** `removeNestedWrapperElements(element, className)`: an absent element stays absent. */
  function RemoveNestedWrapperElements(element: Option<Element>, className: string): (r: Option<Element>)
    ensures r.Some? <==> element.Some?
    ensures element.Some? && !IsWrapperCandidate(element.value, className) ==> r == element
  {
    match element
    case None => None
    case Some(e) => Some(StripAsWritten(e, className))
  }

  /** As written, on a childless element without an id whose one class and class attribute both
      start with the marker, the marker's text is cut from the front of the attribute. */
  lemma AsWrittenOnMarkedLeaf(e: Element)
    requires e.id == "" && e.childNodes == [] && |e.classNames| == 1
    requires Js.OccursAt(e.classNames[0], NoOverflow, 0)
    requires e.classAttr.Some? && Js.OccursAt(e.classAttr.value, NoOverflow, 0)
    ensures StripAsWritten(e, NoOverflow) == e.(classAttr := Some(e.classAttr.value[|NoOverflow|..]),
      classNames := Js.FilterOut(e.classNames, NoOverflow))
  {
    StructureOfClassedLeaf(e);
    Js.IncludesAfterPrefix(e.tag + ".", e.classNames[0], NoOverflow);
    assert IsWrapperCandidate(e, NoOverflow);
    Js.ReplaceFirstAtStart(e.classAttr.value, NoOverflow, "");
    assert "" + e.classAttr.value[|NoOverflow|..] == e.classAttr.value[|NoOverflow|..];
  }

  /** As written, an element whose single class merely contains the marker has that text cut out
      of its class attribute, while `classNames` keeps the class: the two disagree afterwards. */
  lemma AsWrittenManglesLookalikeClass()
    ensures var e := Element("div", "", Some("no-overflow-x"), ["no-overflow-x"], []);
      StripAsWritten(e, NoOverflow) == e.(classAttr := Some("-x"))
  {
    var e := Element("div", "", Some("no-overflow-x"), ["no-overflow-x"], []);
    assert "no-overflow-x"[..11] == NoOverflow;
    AsWrittenOnMarkedLeaf(e);
    assert "no-overflow-x"[11..] == "-x";
    assert Js.FilterOut(e.classNames, NoOverflow) == e.classNames;
  }

  /** As written, the stripper is not idempotent: a second application changes the class
      attribute again. */
  lemma AsWrittenNotIdempotent()
    ensures var e := Element("div", "", Some("no-overflowno-overflow"), ["no-overflowno-overflow"], []);
      StripAsWritten(StripAsWritten(e, NoOverflow), NoOverflow) != StripAsWritten(e, NoOverflow)
  {
    var c := "no-overflowno-overflow";
    var e := Element("div", "", Some(c), [c], []);
    var once := Element("div", "", Some(NoOverflow), [c], []);
    assert c[..11] == NoOverflow && c[11..] == NoOverflow;
    assert Js.FilterOut([c], NoOverflow) == [c];
    AsWrittenOnMarkedLeaf(e);
    assert StripAsWritten(e, NoOverflow) == once;
    assert NoOverflow[..11] == NoOverflow && NoOverflow[11..] == "";
    AsWrittenOnMarkedLeaf(once);
    assert StripAsWritten(once, NoOverflow).classAttr == Some("");
  }

  // ---------------------------------------------------------------------------
  // Corrected

  /** The class attribute spells out the class list, as it does for parsed markup whose
      classes are separated by single spaces. */
  predicate ClassAttrMatchesClassNames(e: Element) {
    e.classAttr == Some(Js.JoinWith(e.classNames, " "))
  }

  /** The stripper with the evidently intended class update: only the marker class itself is
      removed, from the class list and from the class attribute alike, so an element whose one
      class merely contains the marker is returned unchanged. */
  function StripNestedWrappers(e: Element, className: string): (r: Element)
    ensures !IsWrapperCandidate(e, className) ==> r == e
    ensures IsWrapperCandidate(e, className) && !WrapsSingleCandidate(e, className) ==>
      r.tag == e.tag && r.id == e.id && r.childNodes == e.childNodes
      && r.classNames == Js.FilterOut(e.classNames, className)
      && (e.classNames[0] != className ==> r == e)
      && (e.classNames[0] == className ==> r.classNames == [] && r.classAttr == Some(""))
    decreases e
  {
    if IsWrapperCandidate(e, className) then
      if WrapsSingleCandidate(e, className) then StripNestedWrappers(e.childNodes[0].element, className)
      else if e.classNames[0] == className then
        var kept := Js.FilterOut(e.classNames, className);
        assert e.classNames == [className];
        assert kept == [];
        e.(classAttr := Some(Js.JoinWith(kept, " ")), classNames := kept)
      else
        assert e.classNames == [e.classNames[0]];
        Js.FilterOutAbsent(e.classNames, className);
        e
    else e
  }

  /** The corrected stripper leaves a look-alike class alone, attribute included. */
  lemma CorrectedKeepsLookalike()
    ensures var e := Element("div", "", Some("no-overflow-x"), ["no-overflow-x"], []);
      StripNestedWrappers(e, NoOverflow) == e
  {
    var e := Element("div", "", Some("no-overflow-x"), ["no-overflow-x"], []);
    StructureOfClassedLeaf(e);
    assert "no-overflow-x"[..11] == NoOverflow;
    Js.IncludesAfterPrefix(e.tag + ".", e.classNames[0], NoOverflow);
    assert e.classNames[0] != NoOverflow;
  }

  /** Where the element the descent stops at has an attribute that spells out its classes, so
      has the element the corrected stripper returns. */
  lemma {:induction false} StripKeepsClassAttrMatching(e: Element, className: string)
    requires ClassAttrMatchesClassNames(Innermost(e, className))
    ensures ClassAttrMatchesClassNames(StripNestedWrappers(e, className))
    decreases e
  {
    if IsWrapperCandidate(e, className) && WrapsSingleCandidate(e, className) {
      StripKeepsClassAttrMatching(e.childNodes[0].element, className);
    }
  }

  /** The code as written breaks that agreement: `class="no-overflow-x"` spells out its one
      class before the strip and no longer does after it. */
  lemma AsWrittenBreaksClassAttrMatching()
    ensures var e := Element("div", "", Some("no-overflow-x"), ["no-overflow-x"], []);
      ClassAttrMatchesClassNames(e) && !ClassAttrMatchesClassNames(StripAsWritten(e, NoOverflow))
  {
    AsWrittenManglesLookalikeClass();
    assert Js.JoinWith(["no-overflow-x"], " ") == "no-overflow-x";
    assert "-x" != "no-overflow-x";
  }

  /** `removeNoOverflowWrapperElements(element)`, using the corrected stripper; what it returns
      has the same `innerHTML` as the code as written returns. */
  function RemoveNoOverflowWrapperElements(element: Option<Element>): (r: Option<Element>)
    ensures r.Some? <==> element.Some?
    ensures element.Some? ==>
      InnerHtml(r.value) == InnerHtml(RemoveNestedWrapperElements(element, NoOverflow).value)
  {
    match element
    case None => None
    case Some(e) =>
      AsWrittenAgreesWithCorrected(e, NoOverflow);
      InnerHtmlOfChildren(StripNestedWrappers(e, NoOverflow), StripAsWritten(e, NoOverflow));
      Some(StripNestedWrappers(e, NoOverflow))
  }

  /** Stripping twice is stripping once. */
  lemma {:induction false} StripIdempotent(e: Element, className: string)
    ensures StripNestedWrappers(StripNestedWrappers(e, className), className) == StripNestedWrappers(e, className)
    decreases e
  {
    if IsWrapperCandidate(e, className) {
      if WrapsSingleCandidate(e, className) {
        StripIdempotent(e.childNodes[0].element, className);
      }
    }
  }

  /** The stripped element is the innermost wrapper reached by the descent, with the same tag,
      id and children; only its class data may differ. */
  lemma {:induction false} StripKeepsInnermostChildren(e: Element, className: string)
    ensures var r, u := StripNestedWrappers(e, className), Innermost(e, className);
      r.tag == u.tag && r.id == u.id && r.childNodes == u.childNodes
    ensures InnerHtml(StripNestedWrappers(e, className)) == InnerHtml(Innermost(e, className))
    decreases e
  {
    if IsWrapperCandidate(e, className) && WrapsSingleCandidate(e, className) {
      StripKeepsInnermostChildren(e.childNodes[0].element, className);
    } else {
      InnerHtmlOfChildren(StripNestedWrappers(e, className), e);
    }
  }

  /** The code as written and the corrected stripper return the same element apart from its
      class attribute. */
  lemma {:induction false} AsWrittenAgreesWithCorrected(e: Element, className: string)
    ensures StripAsWritten(e, className)
         == StripNestedWrappers(e, className).(classAttr := StripAsWritten(e, className).classAttr)
    decreases e
  {
    if IsWrapperCandidate(e, className) && WrapsSingleCandidate(e, className) {
      AsWrittenAgreesWithCorrected(e.childNodes[0].element, className);
    } else if IsWrapperCandidate(e, className) && e.classNames[0] != className {
      assert e.classNames == [e.classNames[0]];
      Js.FilterOutAbsent(e.classNames, className);
    } else if IsWrapperCandidate(e, className) {
      assert e.classNames == [className];
    }
  }
}
