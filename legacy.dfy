/**
 * The earlier extractor: the same availability rule and module shapes as the current one, but
 * a content module becomes a Text block holding the markup of `.no-overflow .no-overflow` (read
 * through optional chaining, so it cannot fail), a Link block carries no description, the
 * summary is the raw `.summary` markup and a section has no hash. Also the two small helpers
 * next to it: the `Cookie` header built from the browser's cookies and the course-id mapping.
 */
module Legacy {
  import opened Wrappers
  import Js
  import opened Dom
  import opened Normalize
  import opened CourseTypes
  import opened CoursePage
  import MoodleApi

  // ---------------------------------------------------------------------------
  // The Cookie header

  datatype Cookie = Cookie(name: string, value: string)

  /** The text one cookie contributes to the header. */
  function CookiePair(c: Cookie): string {
    c.name + "=" + c.value + "; "
  }

  /** `createHeaderCookieString`: `reduce` from `""`, appending `name=value; ` per cookie. */
  function HeaderCookieString(cookies: seq<Cookie>): (r: string)
    ensures r == "" <==> cookies == []
    ensures |r| >= 3 * |cookies|
    ensures cookies != [] ==> |r| >= 2 && r[|r| - 2..] == "; "
  {
    if cookies == [] then ""
    else HeaderCookieString(cookies[..|cookies| - 1]) + CookiePair(cookies[|cookies| - 1])
  }

  /** The pairs of the cookies, first cookie first. */
  function Pairs(cookies: seq<Cookie>): string {
    if cookies == [] then "" else CookiePair(cookies[0]) + Pairs(cookies[1..])
  }

  /** The header holds the cookies' pairs in order: the fold equals the in-order concatenation. */
  lemma {:induction false} HeaderCookieStringIsPairs(cookies: seq<Cookie>)
    ensures HeaderCookieString(cookies) == Pairs(cookies)
    decreases |cookies|
  {
    if cookies != [] {
      var init := cookies[..|cookies| - 1];
      HeaderCookieStringIsPairs(init);
      PairsAppend(init, [cookies[|cookies| - 1]]);
      assert init + [cookies[|cookies| - 1]] == cookies;
    }
  }

  lemma {:induction false} PairsAppend(a: seq<Cookie>, b: seq<Cookie>)
    ensures Pairs(a + b) == Pairs(a) + Pairs(b)
    decreases |a|
  {
    if a != [] {
      assert (a + b)[1..] == a[1..] + b;
      PairsAppend(a[1..], b);
    } else {
      assert a + b == b;
    }
  }

  /** The header of two cookie lists is the one header followed by the other. */
  lemma HeaderCookieStringAppend(a: seq<Cookie>, b: seq<Cookie>)
    ensures HeaderCookieString(a + b) == HeaderCookieString(a) + HeaderCookieString(b)
  {
    HeaderCookieStringIsPairs(a + b);
    HeaderCookieStringIsPairs(a);
    HeaderCookieStringIsPairs(b);
    PairsAppend(a, b);
  }

  /** The header is empty exactly when there are no cookies, and each cookie adds its pair's
      length. */
  lemma HeaderCookieStringLength(cookies: seq<Cookie>)
    ensures HeaderCookieString(cookies) == "" <==> cookies == []
    ensures cookies != [] ==> (|HeaderCookieString(cookies)| ==
      |HeaderCookieString(cookies[..|cookies| - 1])| + |cookies[|cookies| - 1].name| + |cookies[|cookies| - 1].value| + 3)
  {
  }

  // ---------------------------------------------------------------------------
  // Course ids

  const CourseIdPrefix: string := "coc-course-"

  /** `getCourseIds` after the page is fetched: the id of every `#coc-courselist .coc-course`
      element, reduced to its number, in document order. */
  function GetCourseIds(courses: seq<Element>): (r: seq<Option<int>>)
    ensures |r| == |courses|
  {
    seq(|courses|, i requires 0 <= i < |courses| => AnchorId(CourseIdPrefix, courses[i].id))
  }

  /** One id per element, and an id of the form `coc-course-<digits>` is never NaN. */
  lemma CourseIdsOfMatchingElements(courses: seq<Element>, i: nat)
    requires i < |courses| && MatchesAnchor(CourseIdPrefix, courses[i].id)
    ensures GetCourseIds(courses)[i].Some? && GetCourseIds(courses)[i].value >= 0
  {
    AnchorIdOfMatch(CourseIdPrefix, courses[i].id);
  }

  /** Elements whose ids are `coc-course-<n>` yield exactly the numbers `n`, in order. */
  lemma CourseIdsRoundTrip(courses: seq<Element>, ns: seq<nat>)
    requires |courses| == |ns|
    requires forall i :: 0 <= i < |ns| ==> courses[i].id == CourseIdPrefix + Js.NatToString(ns[i])
    ensures GetCourseIds(courses) == seq(|ns|, i requires 0 <= i < |ns| => Some(ns[i] as int))
  {
    forall i | 0 <= i < |ns|
      ensures GetCourseIds(courses)[i] == Some(ns[i] as int)
    {
      AnchorIdRoundTrip(CourseIdPrefix, ns[i]);
    }
  }

  // ---------------------------------------------------------------------------
  // Sections and modules

  /** The `innerHTML` of `.no-overflow .no-overflow`, if that element exists. */
  function NestedNoOverflowHtml(m: ModuleMarkup): Option<string> {
    match m.nestedNoOverflow
    case None => None
    case Some(e) => Some(InnerHtml(e))
  }

  /** The callback of the earlier `getSectionContent`: a Text block, a Link block without a
      description, or the bare `"empty"` record. Its one dereference is guarded, so it never
      fails. */
  function ClassifyModule(m: ModuleMarkup): (r: Result<ContentBlock, ExtractError>)
    ensures r.Success? && r.value.id == ModuleId(m)
    ensures HasContentShape(m) ==> (r.value.TextBlock? && r.value.modtype == ModType(m.element.classNames)
      && (r.value.text.Some? <==> m.nestedNoOverflow.Some?)
      && (m.nestedNoOverflow.Some? ==> r.value.text == Some(InnerHtml(m.nestedNoOverflow.value))))
    ensures HasLinkShape(m) ==> (r.value.LinkBlock? && r.value.modtype == ModType(m.element.classNames)
      && r.value.url == m.href && r.value.title == MoodleApi.InstanceTitle(m) && r.value.description.None?)
    ensures !HasContentShape(m) && !HasLinkShape(m) ==> r.value == BareModule(m)
  {
    var id := ModuleId(m);
    var modtype := ModType(m.element.classNames);
    if HasContentShape(m) then Success(TextBlock(id, modtype, NestedNoOverflowHtml(m)))
    else if HasLinkShape(m) then Success(LinkBlock(id, modtype, m.href, MoodleApi.InstanceTitle(m), None))
    else Success(BareModule(m))
  }

  /** The earlier `getSectionContent`: no `.content .section` gives no content, and otherwise
      every module is classified and the `"empty"` records are dropped. */
  function GetSectionContent(modules: Option<seq<ModuleMarkup>>): (r: Option<seq<ContentBlock>>)
    ensures r.Some? <==> modules.Some?
    ensures r.Some? ==> forall b :: b in r.value ==> IsKept(b) && !b.HtmlBlock?
  {
    match modules
    case None => None
    case Some(ms) =>
      match MapAll(ms, ClassifyModule)
      case Success(blocks) => Some(KeepBlocks(blocks))
      case Failure(_) => assert false; None
  }

  /** The blocks are the kept classified modules, in document order. */
  lemma SectionContentInDocumentOrder(ms: seq<ModuleMarkup>)
    ensures exists pos: seq<nat> :: IsKeptSubsequence(ms, ClassifyModule, GetSectionContent(Some(ms)).value, pos)
  {
    assert GetSectionContent(Some(ms)).value == KeepBlocks(MapAll(ms, ClassifyModule).value);
    MapKeepInOrder(ms, ClassifyModule);
  }

  /** The summary: the raw `.summary` markup, with a missing element and empty markup both giving
      no summary. */
  function SectionSummary(summary: Option<Element>): (r: Option<string>)
    ensures r != Some("")
    ensures r.None? <==> summary.None? || InnerHtml(summary.value) == ""
    ensures r.Some? ==> r.value == InnerHtml(summary.value)
  {
    match summary
    case None => None
    case Some(e) => var html := InnerHtml(e); if |html| > 0 then Some(html) else None
  }

  /** Where the summary element is not a `no-overflow` wrapper, the two versions agree on it. */
  lemma SummaryAgreesWithoutWrapper(summary: Option<Element>)
    requires summary.Some? ==> !IsWrapperCandidate(summary.value, NoOverflow)
    ensures SectionSummary(summary) == MoodleApi.SectionSummary(summary)
  {
  }

  /** The earlier `getSectionData`: no hash, the raw summary, and the title and availability
      dereferences as the only failures, in that order. */
  function GetSectionData(s: SectionMarkup): (r: Result<CourseSection, ExtractError>)
    ensures s.sectionName.None? ==> r == Failure(MissingSectionName)
    ensures s.sectionName.Some? ==> r.Success? == GetSectionAvailability(s.availabilityContainer, s.availabilityInfo).Success?
    ensures s.sectionName.Some? && r.Failure? ==>
      r.error == GetSectionAvailability(s.availabilityContainer, s.availabilityInfo).error
    ensures r.Success? ==> (r.value.hash.None?
      && r.value.id == AnchorId("section-", s.element.id)
      && r.value.title == Text(s.sectionName.value)
      && r.value.available == GetSectionAvailability(s.availabilityContainer, s.availabilityInfo).value
      && r.value.summary == SectionSummary(s.summary)
      && r.value.content == GetSectionContent(s.modules))
  {
    var id := AnchorId("section-", s.element.id);
    if s.sectionName.None? then Failure(MissingSectionName)
    else
      var title := Text(s.sectionName.value);
      var available :- GetSectionAvailability(s.availabilityContainer, s.availabilityInfo);
      Success(CourseSection(id, None, title, available, SectionSummary(s.summary), GetSectionContent(s.modules)))
  }

  /** Where both versions succeed on a section, they agree on its id, title and availability,
      and the current version adds the hash. */
  lemma VersionsAgreeOnSectionHead(s: SectionMarkup, md5: string -> string)
    requires GetSectionData(s).Success? && MoodleApi.GetSectionData(s, md5).Success?
    ensures var old', new' := GetSectionData(s).value, MoodleApi.GetSectionData(s, md5).value;
      old'.id == new'.id && old'.title == new'.title && old'.available == new'.available
      && old'.hash.None? && new'.hash.Some?
  {
  }

  /** The earlier `getCourseData` for one fetched course page. */
  function GetCourseData(courseId: int, header: Option<Element>, sections: seq<SectionMarkup>): (r: Result<Course, ExtractError>)
    ensures header.None? ==> r == Failure(MissingPageHeader)
    ensures header.Some? ==> (r.Success? <==> forall i :: 0 <= i < |sections| ==> GetSectionData(sections[i]).Success?)
    ensures r.Success? ==> (r.value.id == courseId && r.value.title == Text(header.value)
      && |r.value.sections| == |sections|
      && forall i :: 0 <= i < |sections| ==> r.value.sections[i] == GetSectionData(sections[i]).value)
  {
    match header
    case None => Failure(MissingPageHeader)
    case Some(h) =>
      var built :- MapAll(sections, GetSectionData);
      Success(Course(courseId, Text(h), built))
  }
}
