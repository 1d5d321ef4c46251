/**
 * What both versions of the course-page extractor share, word for word: the selector hits a
 * section and a module are read through, the availability rule, the module id and `modtype`
 * parsing, the two module shapes, the final `filter` on `modtype !== "empty"`, and
 * `Array.prototype.map` over a callback that may throw.
 */
module CoursePage {
  import opened Wrappers
  import Js
  import opened Dom
  import opened CourseTypes

  /** One `.activity` element and the selector hits read from it. */
  datatype ModuleMarkup = ModuleMarkup(
    element: Element,                  // the `.activity` element (its id and class list)
    contentWithoutLink: Option<Element>, // `.contentwithoutlink`
    noOverflow: Option<Element>,       // `.no-overflow` inside `.contentwithoutlink`
    nestedNoOverflow: Option<Element>, // `.no-overflow .no-overflow` inside `.contentwithoutlink`
    link: Option<Element>,             // `.activityinstance a`
    href: Option<string>,              // `getAttribute("href")` of that link
    instanceName: Option<Element>,     // `.instancename` inside that link
    contentAfterLink: Option<Element>) // `.contentafterlink`

  /** One `.section.main` element and the selector hits read from it. */
  datatype SectionMarkup = SectionMarkup(
    element: Element,                       // the section element (its id and innerHTML)
    sectionName: Option<Element>,           // `.content .sectionname`
    availabilityContainer: Option<Element>, // `.content .section_availability`
    availabilityInfo: Option<Element>,      // `.availabilityinfo` inside the container
    summary: Option<Element>,               // `.content .summary`
    modules: Option<seq<ModuleMarkup>>)     // the `.activity` elements of `.content .section`, if present

  // ---------------------------------------------------------------------------
  // Availability

  const AvailabilityInfoClass: string := "availabilityinfo"
  const RestrictedClass: string := "isrestricted"
  const HiddenClass: string := "ishidden"

  /** The classes of the `.availabilityinfo` element other than `availabilityinfo` itself. */
  function AvailabilityTags(info: Element): (r: seq<string>)
    ensures forall t :: t in r <==> t in info.classNames && t != AvailabilityInfoClass
  {
    Js.FilterOut(info.classNames, AvailabilityInfoClass)
  }

  /** `getSectionAvailability`: an empty availability container means the section is available;
      otherwise `isrestricted` means partly available and wins over `ishidden`, `ishidden` alone
      means not available, and any other set of tags is reported and treated as available. */
  function GetSectionAvailability(container: Option<Element>, info: Option<Element>): (r: Result<AvailabilityStatus, ExtractError>)
    ensures r == Failure(MissingAvailabilityContainer) <==> container.None?
    ensures r == Failure(MissingAvailabilityInfo) <==>
      container.Some? && |container.value.childNodes| > 0 && info.None?
    ensures r == Success(Partial) <==>
      container.Some? && |container.value.childNodes| > 0 && info.Some?
      && RestrictedClass in info.value.classNames
    ensures r == Success(NotAvailable) <==>
      container.Some? && |container.value.childNodes| > 0 && info.Some?
      && RestrictedClass !in info.value.classNames && HiddenClass in info.value.classNames
    ensures r == Success(Available) <==>
      container.Some? && (|container.value.childNodes| == 0
        || (info.Some? && RestrictedClass !in info.value.classNames && HiddenClass !in info.value.classNames))
  {
    match container
    case None => Failure(MissingAvailabilityContainer)
    case Some(c) =>
      if |c.childNodes| == 0 then Success(Available)
      else
        match info
        case None => Failure(MissingAvailabilityInfo)
        case Some(i) =>
          var tags := AvailabilityTags(i);
          if RestrictedClass in tags then Success(Partial)
          else if HiddenClass in tags then Success(NotAvailable)
          else Success(Available)
  }

  /** The decision depends only on which classes are present, not on their order, their
      repetition or the `availabilityinfo` class itself. */
  lemma AvailabilityDependsOnClassSet(container: Option<Element>, info1: Element, info2: Element)
    requires (set t | t in info1.classNames && t != AvailabilityInfoClass)
          == (set t | t in info2.classNames && t != AvailabilityInfoClass)
    ensures GetSectionAvailability(container, Some(info1)) == GetSectionAvailability(container, Some(info2))
  {
    var s1 := set t | t in info1.classNames && t != AvailabilityInfoClass;
    var s2 := set t | t in info2.classNames && t != AvailabilityInfoClass;
    assert RestrictedClass[0] != AvailabilityInfoClass[0] && HiddenClass[0] != AvailabilityInfoClass[0];
    assert RestrictedClass in AvailabilityTags(info1) <==> RestrictedClass in s1;
    assert RestrictedClass in AvailabilityTags(info2) <==> RestrictedClass in s2;
    assert HiddenClass in AvailabilityTags(info1) <==> HiddenClass in s1;
    assert HiddenClass in AvailabilityTags(info2) <==> HiddenClass in s2;
    assert RestrictedClass in AvailabilityTags(info1) <==> RestrictedClass in AvailabilityTags(info2);
    assert HiddenClass in AvailabilityTags(info1) <==> HiddenClass in AvailabilityTags(info2);
  }

  // ---------------------------------------------------------------------------
  // Module id and modtype

  const ModTypePrefix: string := "modtype_"

  /** The pattern `modtype_[a-z]+` matches `s` at position `i`. */
  predicate ModTypeMatchAt(s: string, i: nat) {
    i + |ModTypePrefix| < |s| && s[i..i + |ModTypePrefix|] == ModTypePrefix
    && 'a' <= s[i + |ModTypePrefix|] <= 'z'
  }

  /** The leftmost match of `modtype_[a-z]+` at or after `k`. */
  function FirstModTypeMatch(s: string, k: nat): (r: Option<nat>)
    ensures r.Some? ==> k <= r.value && ModTypeMatchAt(s, r.value)
    ensures r.Some? ==> forall j :: k <= j < r.value ==> !ModTypeMatchAt(s, j)
    ensures r.None? ==> forall j :: k <= j ==> !ModTypeMatchAt(s, j)
    decreases |s| - k
  {
    if k + |ModTypePrefix| >= |s| then None
    else if ModTypeMatchAt(s, k) then Some(k)
    else FirstModTypeMatch(s, k + 1)
  }

  /** `/modtype_[a-z]+/.test(className)`. */
  predicate IsModTypeClass(className: string) {
    FirstModTypeMatch(className, 0).Some?
  }

  /** `className.replace(/modtype_([a-z]+)/, "$1")`: the leftmost match is replaced by its
      letters, which amounts to deleting the `modtype_` in front of them. */
  function StripModTypePrefix(className: string): (r: string)
    requires IsModTypeClass(className)
    ensures |r| + |ModTypePrefix| == |className|
  {
    var i := FirstModTypeMatch(className, 0).value;
    className[..i] + className[i + |ModTypePrefix|..]
  }

  /** The first class at or after position `k` that contains `modtype_[a-z]+`. */
  function FirstModTypeClass(classNames: seq<string>, k: nat): (r: Option<nat>)
    ensures r.Some? ==> k <= r.value < |classNames| && IsModTypeClass(classNames[r.value])
    ensures r.Some? ==> forall j :: k <= j < r.value ==> !IsModTypeClass(classNames[j])
    ensures r.None? ==> forall j :: k <= j < |classNames| ==> !IsModTypeClass(classNames[j])
    decreases |classNames| - k
  {
    if k >= |classNames| then None
    else if IsModTypeClass(classNames[k]) then Some(k)
    else FirstModTypeClass(classNames, k + 1)
  }

  /** The module's `modtype`: the first class that contains `modtype_[a-z]+`, with that
      `modtype_` deleted; `None` when no class contains it. */
  function ModType(classNames: seq<string>): (r: Option<string>)
    ensures r.None? <==> forall k :: 0 <= k < |classNames| ==> !IsModTypeClass(classNames[k])
    ensures r.Some? ==> exists k :: (0 <= k < |classNames| && IsModTypeClass(classNames[k])
      && r.value == StripModTypePrefix(classNames[k])
      && forall j :: 0 <= j < k ==> !IsModTypeClass(classNames[j]))
  {
    match FirstModTypeClass(classNames, 0)
    case None => None
    case Some(k) => Some(StripModTypePrefix(classNames[k]))
  }

  predicate AllLowercase(w: string) {
    forall k :: 0 <= k < |w| ==> 'a' <= w[k] <= 'z'
  }

  /** Moodle's own class `modtype_<name>` yields `<name>`. */
  lemma ModTypeOfStandardClass(classNames: seq<string>, k: nat, name: string)
    requires k < |classNames| && classNames[k] == ModTypePrefix + name
    requires name != "" && AllLowercase(name)
    requires forall j :: 0 <= j < k ==> !IsModTypeClass(classNames[j])
    ensures ModType(classNames) == Some(name)
  {
    var c := classNames[k];
    assert c[0..|ModTypePrefix|] == ModTypePrefix;
    assert ModTypeMatchAt(c, 0);
    assert c[|ModTypePrefix|..] == name;
    assert FirstModTypeMatch(c, 0) == Some(0);
    assert StripModTypePrefix(c) == c[..0] + c[|ModTypePrefix|..];
    assert StripModTypePrefix(c) == name;
    assert IsModTypeClass(c);
    ModTypeFirstMatch(classNames, k);
  }

  lemma {:induction false} ModTypeFirstMatch(classNames: seq<string>, k: nat)
    requires k < |classNames| && IsModTypeClass(classNames[k])
    requires forall j :: 0 <= j < k ==> !IsModTypeClass(classNames[j])
    ensures ModType(classNames) == Some(StripModTypePrefix(classNames[k]))
  {
    var r := FirstModTypeClass(classNames, 0);
    assert r.Some? && r.value == k;
  }

  /** The module id: the number in `module-<digits>`. */
  function ModuleId(m: ModuleMarkup): (r: Option<int>)
    ensures MatchesAnchor("module-", m.element.id) ==> r.Some? && r.value >= 0
  {
    AnchorId("module-", m.element.id)
  }

  // ---------------------------------------------------------------------------
  // Module shapes

  /** Body content without a link: `text && text.childNodes.length > 0 && !link`. */
  predicate HasContentShape(m: ModuleMarkup) {
    m.contentWithoutLink.Some? && |m.contentWithoutLink.value.childNodes| > 0 && m.link.None?
  }

  /** A link without body content: `link && link.childNodes.length > 0 && !text`. */
  predicate HasLinkShape(m: ModuleMarkup): (r: bool)
    ensures r ==> !HasContentShape(m) && m.contentWithoutLink.None?
  {
    m.link.Some? && |m.link.value.childNodes| > 0 && m.contentWithoutLink.None?
  }

  /** The record the callback returns for a module of neither shape. */
  const EmptyModType: string := "empty"

  function BareModule(m: ModuleMarkup): (b: ContentBlock)
    ensures b.BareBlock? && b.id == ModuleId(m) && b.modtype == Some(EmptyModType)
  {
    BareBlock(ModuleId(m), Some(EmptyModType))
  }

  // ---------------------------------------------------------------------------
  // The final filter

  /** `contentBlocks.filter(cB => cB.modtype !== "empty")` keeps this block. */
  predicate IsKept(b: ContentBlock) {
    b.modtype != Some(EmptyModType)
  }

  function KeepBlocks(bs: seq<ContentBlock>): (r: seq<ContentBlock>)
    ensures forall b :: b in r ==> b in bs && IsKept(b)
    ensures forall b :: b in bs && IsKept(b) ==> b in r
  {
    if bs == [] then []
    else KeepBlocks(bs[..|bs| - 1]) + (if IsKept(bs[|bs| - 1]) then [bs[|bs| - 1]] else [])
  }

  /** The positions of the kept blocks, in increasing order. */
  function KeptPositions(bs: seq<ContentBlock>): (r: seq<nat>)
    ensures forall k :: 0 <= k < |r| ==> r[k] < |bs|
    ensures forall k, l :: 0 <= k < l < |r| ==> r[k] < r[l]
    ensures forall i :: 0 <= i < |bs| ==> (IsKept(bs[i]) <==> i in r)
  {
    if bs == [] then []
    else
      var init := bs[..|bs| - 1];
      assert forall i :: 0 <= i < |init| ==> bs[i] == init[i];
      KeptPositions(init) + (if IsKept(bs[|bs| - 1]) then [|bs| - 1] else [])
  }

  /** The filter's output is the subsequence of the kept blocks, in document order: its k-th
      block is the block at the k-th kept position. */
  lemma {:induction false} KeepBlocksInOrder(bs: seq<ContentBlock>)
    ensures |KeepBlocks(bs)| == |KeptPositions(bs)|
    ensures forall k :: 0 <= k < |KeptPositions(bs)| ==> KeepBlocks(bs)[k] == bs[KeptPositions(bs)[k]]
    decreases |bs|
  {
    if bs != [] {
      var init := bs[..|bs| - 1];
      KeepBlocksInOrder(init);
      var last := if IsKept(bs[|bs| - 1]) then [bs[|bs| - 1]] else [];
      var lastPos := if IsKept(bs[|bs| - 1]) then [|bs| - 1] else [];
      assert KeepBlocks(bs) == KeepBlocks(init) + last;
      assert KeptPositions(bs) == KeptPositions(init) + lastPos;
      forall k | 0 <= k < |KeptPositions(bs)|
        ensures KeepBlocks(bs)[k] == bs[KeptPositions(bs)[k]]
      {
        if k < |KeptPositions(init)| {
          assert KeepBlocks(bs)[k] == KeepBlocks(init)[k];
          assert KeptPositions(bs)[k] == KeptPositions(init)[k];
          assert bs[KeptPositions(init)[k]] == init[KeptPositions(init)[k]];
        }
      }
    }
  }

  /** `bs` is the subsequence of the blocks `f` makes of `xs` that the filter keeps, in order:
      `pos` lists, in increasing order, exactly the positions whose block is kept, and the k-th
      block of `bs` is the block made of the element at the k-th position. */
  ghost predicate IsKeptSubsequence<A, E>(xs: seq<A>, f: A -> Result<ContentBlock, E>, bs: seq<ContentBlock>, pos: seq<nat>) {
    |pos| == |bs|
    && (forall k :: 0 <= k < |pos| ==> pos[k] < |xs| && f(xs[pos[k]]).Success? && f(xs[pos[k]]).value == bs[k])
    && (forall k, l :: 0 <= k < l < |pos| ==> pos[k] < pos[l])
    && (forall i :: 0 <= i < |xs| ==> (i in pos <==> f(xs[i]).Success? && IsKept(f(xs[i]).value)))
  }

  /** Mapping a callback that may throw and filtering the result keeps the kept blocks in
      order. */
  lemma MapKeepInOrder<A, E>(xs: seq<A>, f: A -> Result<ContentBlock, E>)
    requires MapAll(xs, f).Success?
    ensures exists pos: seq<nat> :: IsKeptSubsequence(xs, f, KeepBlocks(MapAll(xs, f).value), pos)
  {
    var blocks := MapAll(xs, f).value;
    KeepBlocksInOrder(blocks);
    var pos := KeptPositions(blocks);
    var bs := KeepBlocks(blocks);
    forall k | 0 <= k < |pos|
      ensures pos[k] < |xs| && f(xs[pos[k]]).Success? && f(xs[pos[k]]).value == bs[k]
    {
      assert bs[k] == blocks[pos[k]];
    }
    assert IsKeptSubsequence(xs, f, bs, pos);
  }

  /** Every block the filter keeps is one whose `modtype` is not `"empty"`. */
  lemma KeepBlocksDropsEmpty(bs: seq<ContentBlock>)
    ensures forall b :: b in KeepBlocks(bs) ==> b.modtype != Some(EmptyModType)
  {
  }

  // ---------------------------------------------------------------------------
  // `Array.prototype.map` whose callback may throw

  /** Maps `f` over `xs` left to right; the first failure is the result. */
  function MapAll<A, B, E>(xs: seq<A>, f: A -> Result<B, E>): (r: Result<seq<B>, E>)
    ensures r.Success? <==> forall i :: 0 <= i < |xs| ==> f(xs[i]).Success?
    ensures r.Success? ==> |r.value| == |xs| && forall i :: 0 <= i < |xs| ==> r.value[i] == f(xs[i]).value
    ensures r.Failure? ==> exists i :: (0 <= i < |xs| && f(xs[i]).Failure? && f(xs[i]).error == r.error
      && forall j :: 0 <= j < i ==> f(xs[j]).Success?)
  {
    if xs == [] then Success([])
    else
      match f(xs[0])
      case Failure(e) => Failure(e)
      case Success(y) =>
        match MapAll(xs[1..], f)
        case Failure(e) =>
          assert forall j :: 1 <= j < |xs| ==> xs[j] == xs[1..][j - 1];
          Failure(e)
        case Success(ys) =>
          assert forall i :: 1 <= i < |xs| ==> xs[i] == xs[1..][i - 1];
          Success([y] + ys)
  }
}
