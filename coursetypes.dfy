/**
 * The records the extractor produces: a course with its sections, each section with its
 * availability, optional summary and optional list of content blocks.
 */
module CourseTypes {
  import opened Wrappers

  /** The availability enum of a section. */
  datatype AvailabilityStatus = NotAvailable | Available | Partial

  /** A content block. `id` is `None` where `parseInt` gives NaN and `modtype` is `None` where
      the module has no `modtype_` class. `BareBlock` is the `{ id, modtype: "empty" }` record
      of a module that fits neither shape. */
  datatype ContentBlock =
    | HtmlBlock(id: Option<int>, modtype: Option<string>, html: string)
    | LinkBlock(id: Option<int>, modtype: Option<string>, url: Option<string>,
                title: Option<string>, description: Option<string>)
    | TextBlock(id: Option<int>, modtype: Option<string>, text: Option<string>)
    | BareBlock(id: Option<int>, modtype: Option<string>)

  /** A course section. The current extractor fills `hash`; the earlier one leaves it out. */
  datatype CourseSection = CourseSection(
    id: Option<int>,
    hash: Option<string>,
    title: string,
    available: AvailabilityStatus,
    summary: Option<string>,
    content: Option<seq<ContentBlock>>)

  datatype Course = Course(id: int, title: string, sections: seq<CourseSection>)

  /** The places where the extractor dereferences a selector hit that is absent: in the
      source each is a TypeError that rejects the whole course. */
  datatype ExtractError =
    | MissingPageHeader
    | MissingSectionName
    | MissingAvailabilityContainer
    | MissingAvailabilityInfo
    | MissingNoOverflow(moduleId: Option<int>)
}
