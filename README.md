# moodle-notify in Dafny

A model of the core of moodle-notify, a notifier for Moodle course pages. It covers:

- **The course-page extractor** (`src/MoodleAPI.ts`). It turns one section of a course page into a
  `CourseSection` record. The record holds an md5 hash of the raw section markup, the section id and title,
  its availability, the stripped summary, and the content blocks. A content block is an HTML block, a
  Link block, or a dropped `"empty"` record.
- **The wrapper stripper** that the extractor applies to `no-overflow` wrappers.
- **The earlier extractor** (`src/index.ts`). It produces Text blocks, has no hash, and takes the summary
  raw. It sits next to the `Cookie` header builder and the `coc-course-N` course-id mapping.
- **The web-service client's helpers** (`src/MoodleClient.ts`): token decoding, trailing-slash removal,
  form-data construction, and what the client stores.
- **The JSON-backed client** (`src/JsonFileMoodleClient.ts`): the first-run rule and the first-match
  lookups by id.
- **The subscriber list** behind the Telegram bot's `/subscribe` and `/unsubscribe` commands
  (`src/TelegramBot.ts`).

Modules, one per file:

- `Wrappers`: `Option` and `Result`.
- `Js`: the JavaScript built-ins the code relies on, with their ECMAScript meaning. These are `indexOf`,
  `includes`, `replace` with a string pattern, `split`, `join`, `filter`, `find`, `String(n)` and `parseInt`
  as in section 19.2.5 of ECMA-262.
- `Dom`: node-html-parser's element tree, with concrete `structure`, `innerHTML` and `text`. Also the
  `prefix-<digits>` id parser.
- `Normalize`: the wrapper stripper, once as written and once corrected.
- `CourseTypes`: the output records.
- `CoursePage`: what both extractor versions share word for word, namely the availability rule, `modtype`,
  the module shapes, the `"empty"` filter, and `map` over a callback that may throw.
- `MoodleApi`: the current extractor.
- `Legacy`: the earlier extractor and its helpers.
- `MoodleTypes`: the web-service records.
- `Client`: `parseToken`, `removeTrailingSlash`, and the `MoodleClient` class.
- `JsonClient`: the JSON-backed client.
- `Subscribers`: the subscriber list and the `SubscriberStore` class.

Design choices:

- **CSS selectors are not evaluated.** A section or a module is a record of its selector hits
  (`SectionMarkup`, `ModuleMarkup`), each hit present or absent. Where the code dereferences a hit without
  a guard and so would throw a TypeError, the model returns a `Failure` naming the hit.
- **Functions.** md5 and base64 decoding are function parameters.
- **External state.** The outcome of the file-access check, the loaded JSON dump and the web-service
  response are inputs.

Behaviour of the code that the model keeps:

- The code recognises a wrapper by a substring test on the element's `structure` string, not by an
  exact class match.
- An id that does not match `prefix-<digits>` goes whole to `parseInt`, so `"42abc"` yields 42 instead
  of being dropped.
- Section and module ids are optional because `parseInt` may give NaN.
- The program holds no snapshot comparison or change detector, so none is modelled.

## Model

| member | source | states |
|---|---|---|
| Js.IndexOf | src/MoodleAPI.ts:145 | the result is the first position where the pattern occurs; none means it occurs nowhere |
| Js.Includes | src/MoodleAPI.ts:145 | decides `s.includes(sub)`: whether `sub` occurs anywhere in `s` |
| Js.IndexOfAppend | src/MoodleAPI.ts:145 | a first occurrence in a prefix stays the first occurrence after text is appended |
| Js.ReplaceFirst | src/MoodleAPI.ts:157 | `replace` with a string pattern leaves a string without the pattern unchanged; otherwise the text before the first occurrence is kept, the replacement stands where that occurrence was, the text after it is kept, and the length changes by the replacement's length minus the pattern's |
| Js.ReplaceFirstAtStart | src/MoodleAPI.ts:157 | a pattern at the very start is the occurrence `replace` replaces |
| Js.Split | src/MoodleClient.ts:27 | `split` yields at least one part, and at least two exactly when the separator occurs |
| Js.SplitCutsFirst | src/MoodleClient.ts:27 | when the first separator in `p` followed by the separator is the appended one, `split` cuts `p` off the front |
| Js.JoinWith | src/MoodleAPI.ts:145 | computes `parts.join(sep)`: the parts in order with `sep` between neighbours; its properties are `Js.JoinWithStartsWithFirst`, `Js.SplitJoin` and `Js.JoinSplit` |
| Js.JoinWithStartsWithFirst | src/MoodleAPI.ts:145 | `join` of no parts is `""`, and a join of several parts begins with the first part |
| Js.SplitJoin | src/MoodleClient.ts:27 | splitting a join gives the parts back when every inserted separator is the first occurrence after the previous cut |
| Js.JoinSplit | src/MoodleClient.ts:27 | joining the parts of a split with the separator gives the original string |
| Js.FilterOut | src/TelegramBot.ts:47 | `filter(v => v !== x)` removes every `x`, keeps every other element and never lengthens the list |
| Js.FilterOutAppend | src/TelegramBot.ts:47 | filtering distributes over concatenation, so the kept elements keep their order |
| Js.FilterOutAbsent | src/MoodleAPI.ts:159-161 | filtering out an absent element changes nothing |
| Js.FindIndex | src/JsonFileMoodleClient.ts:68 | `find` yields the first element satisfying the predicate; it yields none exactly when no element does |
| Js.NatToString | src/JsonFileMoodleClient.ts:69 | the decimal form of a number is a non-empty string of digits |
| Js.IntToString | src/MoodleClient.ts:101 | `courseId.toString()` and `${courseId}` are non-empty and begin with `-` exactly for a negative number; `Js.ParseIntIntToString` is the round trip |
| Js.TrimStart | src/MoodleAPI.ts:76 | `parseInt` skips exactly the leading white space: what is removed is white space and what remains starts with something else |
| Js.IsJsWhitespace | src/MoodleAPI.ts:76 | decides whether a character is StrWhiteSpaceChar of ECMA-262 (white space or a line terminator), which `parseInt` skips |
| Js.DigitPrefix | src/MoodleAPI.ts:76 | the longest prefix of digits in the base, so parsing stops at the first non-digit |
| Js.ParseUnsigned | src/MoodleAPI.ts:99 | an unsigned number is read only from text that starts with a decimal digit (`0x` included) |
| Js.ParseInt | src/MoodleAPI.ts:76 | `parseInt` of blank text is NaN; a number is read only when the text after the leading white space starts with a sign or a digit, and a negative result needs a leading `-` |
| Js.ParseIntNatToString | src/MoodleAPI.ts:99 | `parseInt` reads the decimal form of every natural number back as that number |
| Js.ParseIntOfDigits | src/MoodleAPI.ts:99 | a string of decimal digits parses to its decimal value |
| Js.ParseIntIntToString | src/MoodleClient.ts:101 | `parseInt(String(i)) === i` for every integer, negative ones included |
| Js.ParseIntMinus | src/MoodleAPI.ts:76 | a leading `-` negates the unsigned value |
| Dom.StructureIgnoresClassAttr | src/MoodleAPI.ts:145 | `structure` never reads the class attribute, only the parsed class list |
| Dom.Structure | src/MoodleAPI.ts:145 | `structure` begins with the element's own line, `tag#id.class1.class2` |
| Dom.StructureOfClassedLeaf | src/MoodleAPI.ts:145 | a childless element with no id and one class has the structure `tag.class`, which mentions the class |
| Dom.InnerHtmlOfChildren | src/MoodleAPI.ts:109 | `innerHTML` depends on the child nodes only |
| Dom.InnerHtml | src/MoodleAPI.ts:107-109 | `innerHTML` of a childless element is `""`; of an element with one child it is that text node's text or that element's own markup |
| Dom.OuterHtml | src/MoodleAPI.ts:107-109 | computes an element's own markup: opening tag with `id` and `class`, the `innerHTML`, closing tag |
| Dom.Text | src/MoodleAPI.ts:77 | `text` of a childless element is `""`; of an element with one child it is that text node's text or that element's text |
| Dom.AnchorId | src/MoodleAPI.ts:76 | an id of the form `prefix<digits>` always yields a number, and a non-negative one; an id of any other form yields a number only when it is not blank |
| Dom.MatchesAnchor | src/MoodleAPI.ts:76 | decides `/^prefix(\d+)$/`: the id is the prefix followed by one or more decimal digits |
| Dom.AnchorIdRoundTrip | src/MoodleAPI.ts:76 | an id written as `section-` (or any prefix) plus the digits of `n` reads back as `n` |
| Dom.AnchorIdOfMatch | src/MoodleAPI.ts:99 | an id matching `^module-(\d+)$` yields the decimal value of its digits, never NaN |
| Normalize.Innermost | src/MoodleAPI.ts:142-153 | the descent stops at an element that is not a wrapper candidate wrapping a single candidate |
| Normalize.IsWrapperCandidate | src/MoodleAPI.ts:143-145 | decides the outer guard: exactly one class, and the `structure` string contains the marker |
| Normalize.WrapsSingleCandidate | src/MoodleAPI.ts:148-150 | decides the inner guard: a single child node, which is an element whose `structure` contains the marker |
| Normalize.StripAsWritten | src/MoodleAPI.ts:138-165 | as written: a non-candidate is returned unchanged; in the strip branch the tag, id and children are kept and the class list is filtered |
| Normalize.RemoveNestedWrapperElements | src/MoodleAPI.ts:138-165 | an absent element stays absent and a present one stays present; an element without exactly one class, or whose structure does not mention the marker, is returned unchanged |
| Normalize.AsWrittenOnMarkedLeaf | src/MoodleAPI.ts:155-161 | as written, a childless element whose only class and class attribute both begin with the marker has the marker's text cut from the front of the attribute, while its class list is only filtered |
| Normalize.AsWrittenManglesLookalikeClass | src/MoodleAPI.ts:155-158 | as written, `<div class="no-overflow-x">` gets the class attribute `-x` while its class list keeps `no-overflow-x` |
| Normalize.AsWrittenNotIdempotent | src/MoodleAPI.ts:155-161 | as written, stripping `class="no-overflowno-overflow"` twice differs from stripping it once |
| Normalize.StripNestedWrappers | src/MoodleAPI.ts:138-165 | corrected stripper: a non-candidate is unchanged; in the strip branch the tag, id and children are kept and only the marker class is removed. An element whose one class is a look-alike such as `no-overflow-x` is returned as it is; one whose class is exactly the marker gets no classes and the class attribute `""` |
| Normalize.CorrectedKeepsLookalike | src/MoodleAPI.ts:155-161 | the corrected stripper leaves `<div class="no-overflow-x">` unchanged |
| Normalize.StripKeepsClassAttrMatching | src/MoodleAPI.ts:138-165 | when the innermost element's class attribute agrees with its class list, so does the stripped element's |
| Normalize.AsWrittenBreaksClassAttrMatching | src/MoodleAPI.ts:155-161 | as written, `<div class="no-overflow-x">` comes out with a class attribute that no longer agrees with its class list |
| Normalize.RemoveNoOverflowWrapperElements | src/MoodleAPI.ts:135-136 | presence is preserved, and the result has the same `innerHTML` as the code as written returns |
| Normalize.StripIdempotent | src/MoodleAPI.ts:138-165 | stripping twice equals stripping once |
| Normalize.StripKeepsInnermostChildren | src/MoodleAPI.ts:147-153 | the stripped element has the tag, id and children of the innermost wrapper, hence its `innerHTML` |
| Normalize.AsWrittenAgreesWithCorrected | src/MoodleAPI.ts:155-161 | the code as written and the corrected stripper return the same element apart from the class attribute |
| CoursePage.AvailabilityTags | src/MoodleAPI.ts:63-65 | the tags are the info element's classes other than `availabilityinfo` |
| CoursePage.GetSectionAvailability | src/MoodleAPI.ts:60-72 | each direction of the four-way rule: an empty container gives AVAILABLE; otherwise `isrestricted` gives PARTIAL and wins over `ishidden`; `ishidden` alone gives NOT_AVAILABLE; any other tags give AVAILABLE. A missing container, or a missing info element under a non-empty container, fails |
| CoursePage.AvailabilityDependsOnClassSet | src/MoodleAPI.ts:63-69 | availability depends only on the set of tags, not on their order, repetition or `availabilityinfo` |
| CoursePage.FirstModTypeMatch | src/MoodleAPI.ts:101 | the result is the leftmost match of `modtype_[a-z]+` in a class name |
| CoursePage.FirstModTypeClass | src/MoodleAPI.ts:100-101 | the result is the first class containing `modtype_[a-z]+` |
| CoursePage.IsModTypeClass | src/MoodleAPI.ts:101 | decides `/modtype_[a-z]+/.test(cN)`: some position starts `modtype_` followed by at least one lowercase ASCII letter |
| CoursePage.StripModTypePrefix | src/MoodleAPI.ts:102 | `replace(/modtype_([a-z]+)/, "$1")` deletes exactly the eight characters of the leftmost `modtype_` |
| CoursePage.ModType | src/MoodleAPI.ts:100-102 | `modtype` is absent exactly when no class contains `modtype_[a-z]+`; otherwise it is the first such class with that `modtype_` deleted |
| CoursePage.ModTypeOfStandardClass | src/MoodleAPI.ts:100-102 | Moodle's own class `modtype_<name>` yields `<name>` |
| CoursePage.ModTypeFirstMatch | src/MoodleAPI.ts:100-102 | the first matching class determines `modtype` |
| CoursePage.ModuleId | src/MoodleAPI.ts:99 | a module id of the form `module-<digits>` always yields a non-negative number |
| CoursePage.HasContentShape | src/MoodleAPI.ts:106 | decides `text && text.childNodes.length > 0 && !link`: `.contentwithoutlink` exists with child nodes and no `.activityinstance a` exists; `CoursePage.HasLinkShape` states that the two shapes exclude each other |
| CoursePage.HasLinkShape | src/MoodleAPI.ts:106-116 | the link shape and the content shape exclude each other, and a link-shaped module has no body content |
| CoursePage.BareModule | src/MoodleAPI.ts:129 | builds the `{ id, modtype: "empty" }` record, with the module id |
| CoursePage.IsKept | src/MoodleAPI.ts:132 | decides the filter's test `cB.modtype !== "empty"` |
| CoursePage.KeepBlocks | src/MoodleAPI.ts:132 | the filter keeps exactly the blocks whose `modtype` is not `"empty"` |
| CoursePage.KeptPositions | src/MoodleAPI.ts:132 | the kept positions are increasing, in range, and exactly those holding a kept block |
| CoursePage.KeepBlocksInOrder | src/MoodleAPI.ts:132 | the k-th output block is the block at the k-th kept position |
| CoursePage.MapKeepInOrder | src/MoodleAPI.ts:97-132 | mapping a callback over the modules and filtering keeps the kept blocks in document order |
| CoursePage.KeepBlocksDropsEmpty | src/MoodleAPI.ts:132 | no block the filter keeps has `modtype` `"empty"` |
| CoursePage.MapAll | src/MoodleAPI.ts:52 | `map` with a callback that may throw succeeds exactly when every call succeeds, and then yields each result in order; otherwise it fails with the first failure |
| MoodleApi.StrippedHtml | src/MoodleAPI.ts:107-109 | the stripped markup is the `innerHTML` of the innermost wrapper |
| MoodleApi.InstanceTitle | src/MoodleAPI.ts:126 | computes `link.querySelector(".instancename")?.text`: the text of `.instancename`, or undefined when it is missing |
| MoodleApi.SectionSummary | src/MoodleAPI.ts:79-82 | the summary is never `""`; it is absent exactly when the `.summary` element is missing or its stripped markup is empty, and otherwise it is that markup |
| MoodleApi.ClassifyModule | src/MoodleAPI.ts:98-130 | the callback fails exactly for a content-shaped module without `.no-overflow`. Content-shaped gives an HTML block with the stripped markup. Link-shaped gives a Link block with `href`, the `.instancename` text, and a description present exactly when `.contentafterlink` exists. Otherwise the `"empty"` record. The block's id is the module id |
| MoodleApi.GetSectionContent | src/MoodleAPI.ts:93-133 | no `.content .section` gives no content. Otherwise it succeeds exactly when every module classifies, keeps no `"empty"` block, and fails with the first module's failure |
| MoodleApi.SectionContentInDocumentOrder | src/MoodleAPI.ts:97-132 | the blocks are the kept classified modules, in document order |
| MoodleApi.NoBlockFromUnshapedModule | src/MoodleAPI.ts:129-132 | a module with both shapes or neither, or of Moodle type `empty`, never yields a block |
| MoodleApi.GetSectionData | src/MoodleAPI.ts:74-92 | the hash is md5 of the raw section markup. The id, title, availability, summary and content are computed as above. A missing `.sectionname` fails first, then the availability, then the content |
| MoodleApi.GetCourseData | src/MoodleAPI.ts:45-58 | a missing page header fails; otherwise it succeeds exactly when every section does, with the requested id, the header text as title, and one section per `.section.main` in order |
| Legacy.CookiePair | src/index.ts:63-69 | computes one cookie's contribution `name=value; ` |
| Legacy.HeaderCookieString | src/index.ts:63-69 | the header is `""` exactly when there are no cookies; otherwise it ends in `; `, and each cookie adds at least three characters |
| Legacy.HeaderCookieStringIsPairs | src/index.ts:63-69 | the `reduce` equals the in-order concatenation of `name=value; ` |
| Legacy.PairsAppend | src/index.ts:63-69 | the pairs of two cookie lists are the pairs of the first followed by those of the second |
| Legacy.HeaderCookieStringAppend | src/index.ts:63-69 | the header of two cookie lists is the one header followed by the other |
| Legacy.HeaderCookieStringLength | src/index.ts:63-69 | the header is `""` exactly when there are no cookies, and each cookie adds its pair's length |
| Legacy.GetCourseIds | src/index.ts:99-104 | one id per `.coc-course` element |
| Legacy.CourseIdsOfMatchingElements | src/index.ts:99-104 | an id of the form `coc-course-<digits>` yields a non-negative number, never NaN |
| Legacy.CourseIdsRoundTrip | src/index.ts:99-104 | elements with ids `coc-course-<n>` yield exactly the numbers `n`, in order |
| Legacy.ClassifyModule | src/index.ts:158-182 | the callback never fails. Content-shaped gives a Text block whose text is present exactly when `.no-overflow .no-overflow` exists. Link-shaped gives a Link block with `href` and title and no description. Otherwise the `"empty"` record |
| Legacy.NestedNoOverflowHtml | src/index.ts:166-167 | computes `querySelector(".no-overflow .no-overflow")?.innerHTML`: that element's `innerHTML`, or undefined when it is missing |
| Legacy.GetSectionContent | src/index.ts:153-185 | content is present exactly when `.content .section` exists; no kept block is `"empty"` or an HTML block |
| Legacy.SectionContentInDocumentOrder | src/index.ts:157-184 | the blocks are the kept classified modules, in document order |
| Legacy.SectionSummary | src/index.ts:142-143 | the summary is the raw `.summary` markup, never `""`, and absent when the element is missing or the markup is empty |
| Legacy.SummaryAgreesWithoutWrapper | src/index.ts:142-143 | where the summary element is not a `no-overflow` wrapper, both versions give the same summary |
| Legacy.GetSectionData | src/index.ts:138-152 | there is no hash; id, title, availability, raw summary and content as above; a missing `.sectionname` fails first, then the availability |
| Legacy.VersionsAgreeOnSectionHead | src/index.ts:138-152 | where both versions succeed they agree on id, title and availability; only the current one has a hash |
| Legacy.GetCourseData | src/index.ts:108-122 | a missing header fails; otherwise one section per `.section.main`, in order |
| Client.ParseToken | src/MoodleClient.ts:25-33 | the token is absent exactly when the decoded string has no `:::`, and then the site id is the whole string; a private token implies a token |
| Client.SeparatorRightAfter | src/MoodleClient.ts:27 | after a clean part the first `:::` is the appended one |
| Client.SplitAtCleanPart | src/MoodleClient.ts:27 | `split` cuts a clean part off the front |
| Client.TwoCleanParts | src/MoodleClient.ts:27 | `split` cuts two clean parts off the front, one after the other |
| Client.ThreeCleanParts | src/MoodleClient.ts:27 | `split` cuts three clean parts off the front, one after the other |
| Client.ParseTokenRoundTrip | src/MoodleClient.ts:27-31 | parsing the decoded string `s:::t:::p` gives back `s`, `t` and `p` |
| Client.ParseTokenIgnoresExtraParts | src/MoodleClient.ts:27-31 | parts after the third are discarded |
| Client.ParseTokenTwoParts | src/MoodleClient.ts:27-31 | a decoded string `s:::t` with no further `:::` gives site id `s`, token `t` and no private token |
| Client.ParseTokenTrailingColonShiftsCut | src/MoodleClient.ts:27 | `a::::b:::c` parses as `a`, `:b`, `c`: a first part ending in `:` does not survive the round trip |
| Client.RemoveTrailingSlash | src/MoodleClient.ts:57 | a URL ending in `/` loses exactly that one character, any other URL is unchanged, and the result is a prefix at most one shorter |
| Client.RemoveTrailingSlashOfAppended | src/MoodleClient.ts:57 | removing the slash undoes appending one |
| Client.RemoveTrailingSlashRemovesOne | src/MoodleClient.ts:57 | `a//` becomes `a/` |
| Client.MoodleClient.constructor | src/MoodleClient.ts:17-23 | the client keeps the token, its base URL is the site URL without a trailing slash, and its default parameter is `moodlewsrestformat=json` |
| Client.FormDataHead | src/MoodleClient.ts:46-47 | computes the two fixed entries `wstoken` and `wsfunction`, in that order |
| Client.CourseContentOptions | src/MoodleClient.ts:100-104 | computes the extra entries of `core_course_get_contents`: `courseid` as a decimal string, then the two options, in source order; `Client.CourseIdEntryRoundTrip` is its round trip |
| Client.MoodleClient.GenerateFormData | src/MoodleClient.ts:41-55 | the form data begins with `wstoken` then `wsfunction`, followed by exactly the additional entries in their order |
| Client.MoodleClient.GetCourseContentById | src/MoodleClient.ts:94-118 | the request carries `courseid` as the third entry, and the returned record has the requested id and the response's sections |
| Client.CourseIdEntryRoundTrip | src/MoodleClient.ts:101 | the `courseid` entry parses back to the requested id |
| JsonClient.FirstRun | src/JsonFileMoodleClient.ts:27-33 | it succeeds exactly when the access check succeeds or fails with ENOENT, and then it is first run exactly for ENOENT; any other error is passed on |
| JsonClient.JsonFileMoodleClient.constructor | src/JsonFileMoodleClient.ts:25-26 | the path is stored and `isFirstRun` starts false |
| JsonClient.JsonFileMoodleClient.Open | src/JsonFileMoodleClient.ts:25-38 | a client is made exactly when the first-run rule does not throw, with the path stored and `isFirstRun` set by the rule |
| JsonClient.GetSiteConfiguration | src/JsonFileMoodleClient.ts:49-52 | the stored site configuration, unchanged, or the load error |
| JsonClient.GetUserConfiguration | src/JsonFileMoodleClient.ts:54-57 | the stored user configuration, unchanged, or the load error |
| JsonClient.GetAllCoursesByUserId | src/JsonFileMoodleClient.ts:59-64 | the stored courses, unchanged, or the load error |
| JsonClient.CourseNotFound | src/JsonFileMoodleClient.ts:69 | computes the message `Course with id: N not found!` |
| JsonClient.ContentNotFound | src/JsonFileMoodleClient.ts:81 | computes the message `Content for course with id: N not found!` |
| JsonClient.SectionNotFound | src/JsonFileMoodleClient.ts:93 | computes the message `Content for section with id: N not found!` |
| JsonClient.AllCoursesIgnoresUser | src/JsonFileMoodleClient.ts:59-64 | the result does not depend on the user id |
| JsonClient.GetCourseById | src/JsonFileMoodleClient.ts:66-71 | it fails exactly when no course has the id, with `Course with id: N not found!`; otherwise it gives the first course with the id |
| JsonClient.FirstContentIndex | src/JsonFileMoodleClient.ts:77-79 | the position of the first content entry with the id; none exactly when there is none |
| JsonClient.GetCourseContentById | src/JsonFileMoodleClient.ts:73-83 | it fails exactly when no content entry has the id, with `Content for course with id: N not found!`; otherwise it gives the first such entry |
| JsonClient.GetCourseSectionById | src/JsonFileMoodleClient.ts:85-95 | a found section has the requested id, and every lookup failure is `Content for section with id: N not found!` |
| JsonClient.SectionLookupThroughContent | src/JsonFileMoodleClient.ts:85-95 | the section lookup succeeds exactly when the course's content lookup does and that content has the section; the result is the first such section |
| JsonClient.OnlyFirstContentSearched | src/JsonFileMoodleClient.ts:90-91 | a section held only by a later content entry with the same course id is not found |
| Subscribers.Subscribe | src/TelegramBot.ts:38-40 | a present id leaves the list unchanged; an absent one is appended at the end |
| Subscribers.Unsubscribe | src/TelegramBot.ts:47 | every occurrence of the id is removed and every other id kept |
| Subscribers.SubscribeIdempotent | src/TelegramBot.ts:38-41 | subscribing twice equals subscribing once |
| Subscribers.SubscribeKeepsNoDuplicates | src/TelegramBot.ts:38-40 | subscribing keeps a duplicate-free list duplicate-free |
| Subscribers.UnsubscribeKeepsNoDuplicates | src/TelegramBot.ts:47 | unsubscribing keeps a duplicate-free list duplicate-free |
| Subscribers.UnsubscribeKeepsOrder | src/TelegramBot.ts:47 | unsubscribing distributes over concatenation, so the other ids keep their order |
| Subscribers.SubscribeThenUnsubscribe | src/TelegramBot.ts:40-47 | on a list without the id, subscribing and then unsubscribing gives back the list |
| Subscribers.SubscriberStore.constructor | src/TelegramBot.ts:11-12 | the store holds the loaded list |
| Subscribers.SubscriberStore.HandleSubscribe | src/TelegramBot.ts:35-42 | the new list is the subscribe result. The reply is `Already subscribed!` for a present id and `Subscribed!` otherwise. No duplicates are introduced |
| Subscribers.SubscriberStore.HandleUnsubscribe | src/TelegramBot.ts:44-49 | the new list is the unsubscribe result, the reply is always `Unsubscribed!`, and no duplicates are introduced |

## Left out

- Network, browser and file I/O are not modelled. That covers all HTTP requests, the Selenium login and cookie capture, the Axios clients, reading and parsing the JSON dump, `users.json`, and the JSON files the earlier extractor writes. Fetched pages, responses, the loaded dump and the access-check outcome are inputs instead.
- `Promise.all` over courses is concurrency. `getCourseData` is modelled for one fetched page, and the `map` inside it is sequential.
- The CSS selector engine is not modelled. Selector hits are fields of `SectionMarkup` and `ModuleMarkup`, and the model does not check that they are consistent with the element tree.
- `querySelector("*")` in the stripper is taken to be the single child element the guard has just checked.
- In-place mutation and aliasing are not captured. The source strips the summary and module elements in place, so later queries on the same section see the changed class data. The model works on values. It keeps the source's order only for the hash, which is taken from the unchanged markup.
- `structure`, `innerHTML`, `text` and `innerText` are simplified definitions of node-html-parser's getters:
  - Only `id` and `class` attributes are serialised.
  - There is no entity decoding or escaping.
  - There are no void or raw-text elements.
  - `innerText` is taken to be `text`.
- md5 and the base64 `Buffer` decoding are uninterpreted function parameters.
- `parseInt` is modelled on unbounded integers. It ignores double precision, `-0` and `Infinity`, and NaN is `None`.
- `console.error` diagnostics and environment-variable parsing are not modelled.
- The Telegram library is left out: command registration, regex dispatch, `sendMessage`, the undefined `run` hook, and the un-awaited write in `/subscribe`.
- Client.MoodleClient.GenerateFormData: requires the token's `token` part to be present, because the declared type makes it a string. A mobile token decoded from fewer than two parts is not carried further.
- Client.MoodleClient.GenerateFormData: the additional entries are a sequence of pairs. It does not model key de-duplication or the key ordering of `Object.entries`, nor the multipart encoding and headers of `FormData`.
- The remaining HTTP methods of `MoodleClient` are network calls and are not modelled: `getSiteConfiguration`, `getUserConfiguration`, `getCourseSectionById`, `getCourseById` and `getAllCoursesByUserId`.
- The web-service records keep only the fields the modelled code reads or that identify a record. The remaining fields are data and are passed through unchanged.
- Client.ParseTokenRoundTrip: requires the first two parts not to end with `:`, in addition to containing no `:::`. Without that condition the round trip is false, as `Client.ParseTokenTrailingColonShiftsCut` shows.
- Normalize.RemoveNoOverflowWrapperElements: returns the corrected stripper's element, so on a look-alike class such as `no-overflow-x` its class attribute stays `no-overflow-x`, where the code as written yields `-x`. Its contract promises only presence and the `innerHTML`, which is all any caller reads; the as-written element is `Normalize.StripAsWritten`.
- JsonClient.SectionLookupThroughContent: ids are integers in the model. The code compares content ids loosely (`==`, src/JsonFileMoodleClient.ts:78) and course and section ids strictly (`===`, lines 68 and 90-91), so with a dump holding a string id the lookups can disagree. The equivalence is stated only for dumps whose ids are numbers.
- CoursePage.KeepBlocks: a module whose own Moodle type is `empty` is dropped together with the shapeless modules. That is the code as written, and `MoodleApi.NoBlockFromUnshapedModule` exhibits it.

## Findings

| source | as written | input that shows it | evidently intended | confidence | as-written member | corrected member |
|---|---|---|---|---|---|---|
| src/MoodleAPI.ts:155-158 | `replace(className, "")` cuts the marker's text out of the class attribute of any single-class element whose structure mentions the marker | `<div class="no-overflow-x">` gets class attribute `-x` while its class list keeps `no-overflow-x`; `class="no-overflowno-overflow"` changes again on a second strip | only the class that is exactly the marker is removed, so stripping is idempotent | low, not executed | Normalize.AsWrittenManglesLookalikeClass | Normalize.StripIdempotent |
