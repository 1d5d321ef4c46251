/**
 * The records of Moodle's web-service API that the clients pass around, reduced to the fields
 * the modelled code reads or that identify a record.
 */
module MoodleTypes {
  import opened Wrappers

  /** A mobile-app token. At run time `token` and `privateToken` are absent when the decoded
      string has fewer parts, whatever the declared type says. */
  datatype MoodleToken = MoodleToken(siteId: string, token: Option<string>, privateToken: Option<string>)

  datatype SiteConfiguration = SiteConfiguration(wwwroot: string, sitename: string)

  datatype UserConfiguration = UserConfiguration(userid: int, username: string, siteurl: string)

  datatype MoodleCourse = MoodleCourse(id: int, shortname: string, fullname: string)

  datatype MoodleCourseSection = MoodleCourseSection(id: int, name: string, summary: string, section: int)

  /** The sections of one course, as `core_course_get_contents` returns them. */
  datatype MoodleCourseContent = MoodleCourseContent(id: int, sections: seq<MoodleCourseSection>)
}
