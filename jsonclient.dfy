/**
 * The client that answers from a JSON dump instead of the network. Construction decides whether
 * this is the first run from the outcome of a write-access check on the file. Every lookup
 * reloads the file; the loaded data (or the error loading it raised) is a parameter here, and
 * the lookups are first-match searches by id.
 */
module JsonClient {
  import opened Wrappers
  import Js
  import opened MoodleTypes

  /** The contents of the dump. */
  datatype MoodleJsonData = MoodleJsonData(
    siteConfig: SiteConfiguration,
    userConfig: UserConfiguration,
    userCourses: seq<MoodleCourse>,
    userCoursesContents: seq<MoodleCourseContent>)

  /** The outcome of the synchronous write-access check on the file: success, or the error code
      it threw. */
  datatype AccessOutcome = Accessible | AccessFailed(code: string)

  const NoSuchFile: string := "ENOENT"

  /** The first-run rule: a missing file means first run, an accessible file means not, and any
      other error is thrown on. */
  function FirstRun(access: AccessOutcome): (r: Result<bool, string>)
    ensures r.Success? <==> access.Accessible? || access.code == NoSuchFile
    ensures r.Success? ==> (r.value <==> access == AccessFailed(NoSuchFile))
    ensures r.Failure? ==> r.error == access.code
  {
    match access
    case Accessible => Success(false)
    case AccessFailed(code) => if code == NoSuchFile then Success(true) else Failure(code)
  }

  class JsonFileMoodleClient {
    var filePath: string
    var isFirstRun: bool

    /** The field initialisers and the first assignment of the constructor. */
    constructor(filePath: string)
      ensures this.filePath == filePath && !isFirstRun
    {
      this.filePath := filePath;
      isFirstRun := false;
    }

    /** `new JsonFileMoodleClient(filePath)`: the access check's outcome either flips
        `isFirstRun` or is rethrown, in which case no client is made. */
    static method Open(filePath: string, access: AccessOutcome) returns (r: Result<JsonFileMoodleClient, string>)
      ensures r.Success? <==> FirstRun(access).Success?
      ensures r.Failure? ==> r.error == FirstRun(access).error
      ensures r.Success? ==> (fresh(r.value) && r.value.filePath == filePath
        && r.value.isFirstRun == FirstRun(access).value)
    {
      var client := new JsonFileMoodleClient(filePath);
      match access {
        case Accessible =>
          r := Success(client);
        case AccessFailed(code) =>
          if code == NoSuchFile {
            client.isFirstRun := true;
            r := Success(client);
          } else {
            r := Failure(code);
          }
      }
    }
  }

  // ---------------------------------------------------------------------------
  // Lookups over the loaded dump

  function GetSiteConfiguration(loaded: Result<MoodleJsonData, string>): (r: Result<SiteConfiguration, string>)
    ensures r.Success? <==> loaded.Success?
    ensures r.Success? ==> r.value == loaded.value.siteConfig
    ensures r.Failure? ==> r.error == loaded.error
  {
    var data :- loaded;
    Success(data.siteConfig)
  }

  function GetUserConfiguration(loaded: Result<MoodleJsonData, string>): (r: Result<UserConfiguration, string>)
    ensures r.Success? <==> loaded.Success?
    ensures r.Success? ==> r.value == loaded.value.userConfig
    ensures r.Failure? ==> r.error == loaded.error
  {
    var data :- loaded;
    Success(data.userConfig)
  }

  /** All stored courses, whoever asks. */
  function GetAllCoursesByUserId(loaded: Result<MoodleJsonData, string>, userId: int): (r: Result<seq<MoodleCourse>, string>)
    ensures r.Success? <==> loaded.Success?
    ensures r.Success? ==> r.value == loaded.value.userCourses
    ensures r.Failure? ==> r.error == loaded.error
  {
    var data :- loaded;
    Success(data.userCourses)
  }

  function CourseNotFound(courseId: int): string {
    "Course with id: " + Js.IntToString(courseId) + " not found!"
  }

  function ContentNotFound(courseId: int): string {
    "Content for course with id: " + Js.IntToString(courseId) + " not found!"
  }

  function SectionNotFound(sectionId: int): string {
    "Content for section with id: " + Js.IntToString(sectionId) + " not found!"
  }

  /** The first stored course with the id, or the not-found error. */
  function GetCourseById(loaded: Result<MoodleJsonData, string>, courseId: int): (r: Result<MoodleCourse, string>)
    ensures loaded.Failure? ==> r.Failure? && r.error == loaded.error
    ensures loaded.Success? ==> var cs := loaded.value.userCourses;
      (r.Failure? <==> forall i :: 0 <= i < |cs| ==> cs[i].id != courseId)
      && (r.Failure? ==> r.error == CourseNotFound(courseId))
      && (r.Success? ==> (r.value.id == courseId
          && exists i :: (0 <= i < |cs| && cs[i] == r.value && forall j :: 0 <= j < i ==> cs[j].id != courseId)))
  {
    var data :- loaded;
    match Js.FindIndex(data.userCourses, (c: MoodleCourse) => c.id == courseId)
    case None => Failure(CourseNotFound(courseId))
    case Some(i) => Success(data.userCourses[i])
  }

  /** The position of the first stored content entry with the id. */
  function FirstContentIndex(contents: seq<MoodleCourseContent>, courseId: int): (r: Option<nat>)
    ensures r.Some? ==> (r.value < |contents| && contents[r.value].id == courseId
      && forall j :: 0 <= j < r.value ==> contents[j].id != courseId)
    ensures r.None? <==> forall j :: 0 <= j < |contents| ==> contents[j].id != courseId
  {
    Js.FindIndex(contents, (c: MoodleCourseContent) => c.id == courseId)
  }

  /** The first stored content entry with the id, or the not-found error. */
  function GetCourseContentById(loaded: Result<MoodleJsonData, string>, courseId: int): (r: Result<MoodleCourseContent, string>)
    ensures loaded.Failure? ==> r.Failure? && r.error == loaded.error
    ensures loaded.Success? ==> var cs := loaded.value.userCoursesContents;
      (r.Failure? <==> forall i :: 0 <= i < |cs| ==> cs[i].id != courseId)
      && (r.Failure? ==> r.error == ContentNotFound(courseId))
      && (r.Success? ==> (r.value.id == courseId
          && exists i :: (0 <= i < |cs| && cs[i] == r.value && forall j :: 0 <= j < i ==> cs[j].id != courseId)))
  {
    var data :- loaded;
    match FirstContentIndex(data.userCoursesContents, courseId)
    case None => Failure(ContentNotFound(courseId))
    case Some(i) => Success(data.userCoursesContents[i])
  }

  /** The section with the id in the first content entry of the course; a missing course and a
      missing section give the same error. */
  function GetCourseSectionById(loaded: Result<MoodleJsonData, string>, courseId: int, sectionId: int): (r: Result<MoodleCourseSection, string>)
    ensures loaded.Failure? ==> r.Failure? && r.error == loaded.error
    ensures loaded.Success? && r.Failure? ==> r.error == SectionNotFound(sectionId)
    ensures r.Success? ==> r.value.id == sectionId
  {
    var data :- loaded;
    var section :=
      match FirstContentIndex(data.userCoursesContents, courseId)
      case None => None
      case Some(i) =>
        var sections := data.userCoursesContents[i].sections;
        match Js.FindIndex(sections, (s: MoodleCourseSection) => s.id == sectionId)
        case None => None
        case Some(k) => Some(sections[k]);
    match section
    case None => Failure(SectionNotFound(sectionId))
    case Some(s) => Success(s)
  }

  /** A section lookup succeeds exactly when the course's content lookup succeeds and that
      content has a section with the id, and then the section is the first such one. */
  lemma SectionLookupThroughContent(loaded: Result<MoodleJsonData, string>, courseId: int, sectionId: int)
    requires loaded.Success?
    ensures var c := GetCourseContentById(loaded, courseId);
      var r := GetCourseSectionById(loaded, courseId, sectionId);
      (r.Success? <==> c.Success? && exists k :: 0 <= k < |c.value.sections| && c.value.sections[k].id == sectionId)
      && (r.Success? ==> exists k :: (0 <= k < |c.value.sections| && c.value.sections[k] == r.value
          && forall j :: 0 <= j < k ==> c.value.sections[j].id != sectionId))
  {
    var data := loaded.value;
    match FirstContentIndex(data.userCoursesContents, courseId)
    case None =>
    case Some(i) =>
      var sections := data.userCoursesContents[i].sections;
      match Js.FindIndex(sections, (s: MoodleCourseSection) => s.id == sectionId)
      case None =>
      case Some(k) =>
        assert GetCourseContentById(loaded, courseId) == Success(data.userCoursesContents[i]);
        assert GetCourseSectionById(loaded, courseId, sectionId) == Success(sections[k]);
  }

  /** Only the first content entry of a course is searched: a section that only a later entry
      with the same id holds is not found. */
  lemma OnlyFirstContentSearched(data: MoodleJsonData, courseId: int, sectionId: int, i: nat, j: nat)
    requires i < j < |data.userCoursesContents|
    requires data.userCoursesContents[i].id == courseId && data.userCoursesContents[j].id == courseId
    requires forall k :: 0 <= k < i ==> data.userCoursesContents[k].id != courseId
    requires forall k :: 0 <= k < |data.userCoursesContents[i].sections| ==>
      data.userCoursesContents[i].sections[k].id != sectionId
    ensures GetCourseSectionById(Success(data), courseId, sectionId) == Failure(SectionNotFound(sectionId))
  {
    assert FirstContentIndex(data.userCoursesContents, courseId) == Some(i);
  }

  /** The stored courses do not depend on the user asked about. */
  lemma AllCoursesIgnoresUser(loaded: Result<MoodleJsonData, string>, u1: int, u2: int)
    ensures GetAllCoursesByUserId(loaded, u1) == GetAllCoursesByUserId(loaded, u2)
  {
  }
}
