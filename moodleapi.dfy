/**
 * The current course-page extractor: a section's markup becomes a `CourseSection` with the md5
 * hash of its raw markup, its id, title, availability, stripped summary and content blocks
 * (HTML blocks with the stripped `.no-overflow` markup, Link blocks with a description).
 * A selector hit that the code dereferences without a guard is a `Failure`.
 */
module MoodleApi {
  import opened Wrappers
  import opened Dom
  import opened Normalize
  import opened CourseTypes
  import opened CoursePage

  /** `removeNoOverflowWrapperElements(e).innerHTML` for a present element: the markup inside
      the innermost wrapper the stripper descends to. */
  function StrippedHtml(e: Element): (r: string)
    ensures r == InnerHtml(Innermost(e, NoOverflow))
  {
    StripKeepsInnermostChildren(e, NoOverflow);
    InnerHtml(RemoveNoOverflowWrapperElements(Some(e)).value)
  }

  /** The section summary: the stripped `.summary` markup, with a missing element and empty
      markup both giving no summary. */
  function SectionSummary(summary: Option<Element>): (r: Option<string>)
    ensures r != Some("")
    ensures r.None? <==> summary.None? || InnerHtml(Innermost(summary.value, NoOverflow)) == ""
    ensures r.Some? ==> r.value == InnerHtml(Innermost(summary.value, NoOverflow))
  {
    match RemoveNoOverflowWrapperElements(summary)
    case None => None
    case Some(e) =>
      var html := StrippedHtml(summary.value);
      if |html| > 0 then Some(html) else None
  }

  /** The `.instancename` text of a link, if present. */
  function InstanceTitle(m: ModuleMarkup): Option<string> {
    match m.instanceName
    case None => None
    case Some(n) => Some(Text(n))
  }

  /** The callback of `getSectionContent`: one module becomes an HTML block, a Link block or
      the bare `"empty"` record. A content-shaped module without `.no-overflow` is the
      unguarded `.innerHTML` dereference. */
  function ClassifyModule(m: ModuleMarkup): (r: Result<ContentBlock, ExtractError>)
    ensures r.Failure? <==> HasContentShape(m) && m.noOverflow.None?
    ensures r.Failure? ==> r.error == MissingNoOverflow(ModuleId(m))
    ensures r.Success? ==> r.value.id == ModuleId(m)
    ensures HasContentShape(m) && r.Success? ==>
      r.value == HtmlBlock(ModuleId(m), ModType(m.element.classNames), InnerHtml(Innermost(m.noOverflow.value, NoOverflow)))
    ensures HasLinkShape(m) ==>
      r.Success? && r.value.LinkBlock? && r.value.modtype == ModType(m.element.classNames)
      && r.value.url == m.href && r.value.title == InstanceTitle(m)
      && (r.value.description.Some? <==> m.contentAfterLink.Some?)
      && (m.contentAfterLink.Some? ==> r.value.description == Some(InnerHtml(Innermost(m.contentAfterLink.value, NoOverflow))))
    ensures !HasContentShape(m) && !HasLinkShape(m) ==> r == Success(BareModule(m))
  {
    var id := ModuleId(m);
    var modtype := ModType(m.element.classNames);
    if HasContentShape(m) then
      match RemoveNoOverflowWrapperElements(m.noOverflow)
      case None => Failure(MissingNoOverflow(id))
      case Some(_) => Success(HtmlBlock(id, modtype, StrippedHtml(m.noOverflow.value)))
    else if HasLinkShape(m) then
      var description := match m.contentAfterLink
                         case None => None
                         case Some(c) => Some(StrippedHtml(c));
      Success(LinkBlock(id, modtype, m.href, InstanceTitle(m), description))
    else
      Success(BareModule(m))
  }

  /** `getSectionContent`: no `.content .section` gives no content; otherwise every module is
      classified in document order and the `"empty"` records are filtered out. */
  function GetSectionContent(modules: Option<seq<ModuleMarkup>>): (r: Result<Option<seq<ContentBlock>>, ExtractError>)
    ensures modules.None? ==> r == Success(None)
    ensures modules.Some? ==>
      (r.Success? <==> forall i :: 0 <= i < |modules.value| ==> ClassifyModule(modules.value[i]).Success?)
    ensures modules.Some? && r.Success? ==> r.value.Some? && forall b :: b in r.value.value ==> IsKept(b)
    ensures modules.Some? && r.Failure? ==> exists i :: (0 <= i < |modules.value|
      && ClassifyModule(modules.value[i]) == Failure(r.error)
      && forall j :: 0 <= j < i ==> ClassifyModule(modules.value[j]).Success?)
  {
    match modules
    case None => Success(None)
    case Some(ms) =>
      var blocks :- MapAll(ms, ClassifyModule);
      Success(Some(KeepBlocks(blocks)))
  }

  /** The blocks of a section are the kept classified modules, in document order. */
  lemma SectionContentInDocumentOrder(ms: seq<ModuleMarkup>)
    requires forall i :: 0 <= i < |ms| ==> ClassifyModule(ms[i]).Success?
    ensures exists pos: seq<nat> :: IsKeptSubsequence(ms, ClassifyModule, GetSectionContent(Some(ms)).value.value, pos)
  {
    assert GetSectionContent(Some(ms)).value.value == KeepBlocks(MapAll(ms, ClassifyModule).value);
    MapKeepInOrder(ms, ClassifyModule);
  }

  /** A module of neither shape never yields a block; nor does a module of Moodle type `empty`,
      whose block is indistinguishable from the record of a shapeless module. */
  lemma NoBlockFromUnshapedModule(ms: seq<ModuleMarkup>, i: nat)
    requires i < |ms| && forall j :: 0 <= j < |ms| ==> ClassifyModule(ms[j]).Success?
    requires (!HasContentShape(ms[i]) && !HasLinkShape(ms[i])) || ModType(ms[i].element.classNames) == Some(EmptyModType)
    ensures forall k :: 0 <= k < |GetSectionContent(Some(ms)).value.value| ==>
      Success(GetSectionContent(Some(ms)).value.value[k]) != ClassifyModule(ms[i])
  {
    var bs := GetSectionContent(Some(ms)).value.value;
    assert !IsKept(ClassifyModule(ms[i]).value);
    forall k | 0 <= k < |bs|
      ensures Success(bs[k]) != ClassifyModule(ms[i])
    {
      assert bs[k] in bs;
    }
  }

  /** `getSectionData`. The hash is taken over the raw section markup, before the summary is
      stripped; the title dereference fails first, then the availability, then the content. */
  function GetSectionData(s: SectionMarkup, md5: string -> string): (r: Result<CourseSection, ExtractError>)
    ensures s.sectionName.None? ==> r == Failure(MissingSectionName)
    ensures s.sectionName.Some? && GetSectionAvailability(s.availabilityContainer, s.availabilityInfo).Failure? ==>
      r == Failure(GetSectionAvailability(s.availabilityContainer, s.availabilityInfo).error)
    ensures r.Success? <==> (s.sectionName.Some?
      && GetSectionAvailability(s.availabilityContainer, s.availabilityInfo).Success?
      && GetSectionContent(s.modules).Success?)
    ensures r.Success? ==>
      r.value.hash == Some(md5(InnerHtml(s.element)))
      && r.value.id == AnchorId("section-", s.element.id)
      && r.value.title == Text(s.sectionName.value)
      && r.value.available == GetSectionAvailability(s.availabilityContainer, s.availabilityInfo).value
      && r.value.summary == SectionSummary(s.summary)
      && r.value.content == GetSectionContent(s.modules).value
  {
    var hash := md5(InnerHtml(s.element));
    var id := AnchorId("section-", s.element.id);
    if s.sectionName.None? then Failure(MissingSectionName)
    else
      var title := Text(s.sectionName.value);
      var available :- GetSectionAvailability(s.availabilityContainer, s.availabilityInfo);
      var summary := SectionSummary(s.summary);
      var content :- GetSectionContent(s.modules);
      Success(CourseSection(id, Some(hash), title, available, summary, content))
  }

  /** `getCourseData` for one fetched course page: the header's text is the title and every
      `.section.main` element becomes a section, in document order. */
  function GetCourseData(courseId: int, header: Option<Element>, sections: seq<SectionMarkup>, md5: string -> string): (r: Result<Course, ExtractError>)
    ensures header.None? ==> r == Failure(MissingPageHeader)
    ensures header.Some? ==> (r.Success? <==> forall i :: 0 <= i < |sections| ==> GetSectionData(sections[i], md5).Success?)
    ensures r.Success? ==> (r.value.id == courseId && r.value.title == Text(header.value)
      && |r.value.sections| == |sections|
      && forall i :: 0 <= i < |sections| ==> r.value.sections[i] == GetSectionData(sections[i], md5).value)
  {
    match header
    case None => Failure(MissingPageHeader)
    case Some(h) =>
      var title := Text(h);
      var built :- MapAll(sections, s => GetSectionData(s, md5));
      Success(Course(courseId, title, built))
  }
}
