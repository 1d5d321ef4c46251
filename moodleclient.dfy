/**
 * The request helpers of the web-service client: decoding the app token, dropping a trailing
 * slash from the site URL, and building the form data of a web-service call, plus what the
 * client stores on construction and the record `getCourseContentById` returns.
 */
module Client {
  import opened Wrappers
  import Js
  import opened MoodleTypes

  // ---------------------------------------------------------------------------
  // parseToken

  const TokenSeparator: string := ":::"

  /** `parseToken`: the decoded token split on `:::`, its first three parts being the site id,
      the token and the private token; missing parts are absent and further parts are ignored.
      The base64 decoding is the parameter `decode`. */
  function ParseToken(encoded: string, decode: string -> string): (r: MoodleToken)
    ensures r.token.None? <==> !Js.Includes(decode(encoded), TokenSeparator)
    ensures r.token.None? ==> r.siteId == decode(encoded) && r.privateToken.None?
    ensures r.privateToken.Some? ==> r.token.Some?
  {
    var parts := Js.Split(decode(encoded), TokenSeparator);
    MoodleToken(
      parts[0],
      if |parts| >= 2 then Some(parts[1]) else None,
      if |parts| >= 3 then Some(parts[2]) else None)
  }

  /** A part that can be followed by the separator without moving the cut: it contains no
      `:::` and does not end with `:`. */
  predicate IsCleanPart(a: string) {
    !Js.Includes(a, TokenSeparator) && (a == [] || a[|a| - 1] != ':')
  }

  lemma SeparatorRightAfter(a: string)
    requires IsCleanPart(a)
    ensures Js.IndexOf(a + TokenSeparator, TokenSeparator) == Some(|a|)
  {
    var s := a + TokenSeparator;
    assert s[|a|..|a| + 3] == TokenSeparator;
    assert Js.OccursAt(s, TokenSeparator, |a|);
    forall j | 0 <= j < |a|
      ensures !Js.OccursAt(s, TokenSeparator, j)
    {
      if j + 3 <= |a| {
        assert s[j..j + 3] == a[j..j + 3];
        assert !Js.OccursAt(a, TokenSeparator, j);
      } else {
        assert s[j..j + 3][|a| - 1 - j] == s[|a| - 1] == a[|a| - 1];
      }
    }
  }

  lemma SplitAtCleanPart(a: string, rest: string)
    requires IsCleanPart(a)
    ensures Js.Split(a + TokenSeparator + rest, TokenSeparator) == [a] + Js.Split(rest, TokenSeparator)
  {
    SeparatorRightAfter(a);
    Js.SplitCutsFirst(a, rest, TokenSeparator);
  }

  /** Encoding three parts as `s:::t:::p` and parsing gives them back when `s` and `t` are clean
      and `p` holds no `:::`. */
  lemma ParseTokenRoundTrip(s: string, t: string, p: string, encoded: string, decode: string -> string)
    requires decode(encoded) == s + TokenSeparator + (t + TokenSeparator + p)
    requires IsCleanPart(s) && IsCleanPart(t) && !Js.Includes(p, TokenSeparator)
    ensures ParseToken(encoded, decode) == MoodleToken(s, Some(t), Some(p))
  {
    var rest := t + TokenSeparator + p;
    SplitAtCleanPart(s, rest);
    SplitAtCleanPart(t, p);
    assert Js.Split(p, TokenSeparator) == [p];
    assert Js.Split(decode(encoded), TokenSeparator) == [s, t, p];
  }

  /** Parts after the third are dropped. */
  lemma ParseTokenIgnoresExtraParts(s: string, t: string, p: string, rest: string, encoded: string, decode: string -> string)
    requires decode(encoded) == s + TokenSeparator + (t + TokenSeparator + (p + TokenSeparator + rest))
    requires IsCleanPart(s) && IsCleanPart(t) && IsCleanPart(p)
    ensures ParseToken(encoded, decode) == MoodleToken(s, Some(t), Some(p))
  {
    ThreeCleanParts(s, t, p, rest);
    var parts := Js.Split(decode(encoded), TokenSeparator);
    assert parts[0] == s && parts[1] == t && parts[2] == p;
  }

  /** Three clean parts are cut off the front one after the other. */
  lemma {:induction false} ThreeCleanParts(s: string, t: string, p: string, rest: string)
    requires IsCleanPart(s) && IsCleanPart(t) && IsCleanPart(p)
    ensures Js.Split(s + TokenSeparator + (t + TokenSeparator + (p + TokenSeparator + rest)), TokenSeparator)
      == [s, t, p] + Js.Split(rest, TokenSeparator)
  {
    var tail := t + TokenSeparator + (p + TokenSeparator + rest);
    calc {
      Js.Split(s + TokenSeparator + tail, TokenSeparator);
    == { SplitAtCleanPart(s, tail); }
      [s] + Js.Split(tail, TokenSeparator);
    == { TwoCleanParts(t, p, rest); }
      [s] + ([t, p] + Js.Split(rest, TokenSeparator));
    ==
      [s, t, p] + Js.Split(rest, TokenSeparator);
    }
  }

  lemma {:induction false} TwoCleanParts(t: string, p: string, rest: string)
    requires IsCleanPart(t) && IsCleanPart(p)
    ensures Js.Split(t + TokenSeparator + (p + TokenSeparator + rest), TokenSeparator)
      == [t, p] + Js.Split(rest, TokenSeparator)
  {
    var tail := p + TokenSeparator + rest;
    calc {
      Js.Split(t + TokenSeparator + tail, TokenSeparator);
    == { SplitAtCleanPart(t, tail); }
      [t] + Js.Split(tail, TokenSeparator);
    == { SplitAtCleanPart(p, rest); }
      [t] + ([p] + Js.Split(rest, TokenSeparator));
    ==
      [t, p] + Js.Split(rest, TokenSeparator);
    }
  }

  /** A two-part token `s:::t` has no private token. */
  lemma ParseTokenTwoParts(s: string, t: string, encoded: string, decode: string -> string)
    requires decode(encoded) == s + TokenSeparator + t
    requires IsCleanPart(s) && !Js.Includes(t, TokenSeparator)
    ensures ParseToken(encoded, decode) == MoodleToken(s, Some(t), None)
  {
    SplitAtCleanPart(s, t);
    assert Js.Split(t, TokenSeparator) == [t];
  }

  /** Without the trailing-colon condition the round trip fails: `a:` + `:::` + `b` + `:::` + `c`
      is cut after the `a`. */
  lemma ParseTokenTrailingColonShiftsCut(encoded: string, decode: string -> string)
    requires decode(encoded) == "a::::b:::c"
    ensures ParseToken(encoded, decode) == MoodleToken("a", Some(":b"), Some("c"))
  {
    var d := "a::::b:::c";
    assert d[1..4] == TokenSeparator;
    assert d[0..3][0] == 'a';
    assert Js.IndexOf(d, TokenSeparator) == Some(1);
    assert d[..1] == "a" && d[4..] == ":b:::c";
    var e := ":b:::c";
    assert e[2..5] == TokenSeparator;
    assert e[0..3][1] == 'b' && e[1..4][0] == 'b';
    assert Js.IndexOf(e, TokenSeparator) == Some(2);
    assert e[..2] == ":b" && e[5..] == "c";
    assert Js.IndexOf("c", TokenSeparator) == None;
    assert Js.Split(d, TokenSeparator) == ["a", ":b", "c"];
  }

  // ---------------------------------------------------------------------------
  // removeTrailingSlash

  /** `url.replace(/\/$/, "")`: one `/` at the very end is removed. */
  function RemoveTrailingSlash(url: string): (r: string)
    ensures |url| > 0 && url[|url| - 1] == '/' ==> r + "/" == url
    ensures !(|url| > 0 && url[|url| - 1] == '/') ==> r == url
    ensures |r| >= |url| - 1 && r == url[..|r|]
  {
    if |url| > 0 && url[|url| - 1] == '/' then url[..|url| - 1] else url
  }

  /** Removing the slash undoes appending one. */
  lemma RemoveTrailingSlashOfAppended(url: string)
    ensures RemoveTrailingSlash(url + "/") == url
  {
    assert (url + "/")[..|url|] == url;
  }

  /** Only one slash goes: `a//` becomes `a/`. */
  lemma RemoveTrailingSlashRemovesOne()
    ensures RemoveTrailingSlash("a//") == "a/"
  {
    assert "a//"[..2] == "a/";
  }

  // ---------------------------------------------------------------------------
  // The client

  const RestFormat: (string, string) := ("moodlewsrestformat", "json")

  /** The first two entries of every web-service call. */
  function FormDataHead(t: MoodleToken, functionName: string): seq<(string, string)>
    requires t.token.Some?
  {
    [("wstoken", t.token.value), ("wsfunction", functionName)]
  }

  /** The extra entries `getCourseContentById` sends. */
  function CourseContentOptions(courseId: int): seq<(string, string)> {
    [("courseid", Js.IntToString(courseId)),
     ("options[0][name]", "includestealthmodules"),
     ("options[0][value]", "1"),
     ("options[1][name]", "excludecontents"),
     ("options[1][value]", "1")]
  }

  class MoodleClient {
    var token: MoodleToken
    /** The axios instance's base URL and default query parameters. */
    var baseUrl: string
    var defaultParams: seq<(string, string)>

    constructor(siteUrl: string, token: MoodleToken)
      ensures this.token == token
      ensures baseUrl == RemoveTrailingSlash(siteUrl)
      ensures defaultParams == [RestFormat]
    {
      this.token := token;
      baseUrl := RemoveTrailingSlash(siteUrl);
      defaultParams := [RestFormat];
    }

    /** `generateFormData`: the token and the function name, then each additional entry in
        order. The declared type of a token makes its `token` part present. */
    method GenerateFormData(t: MoodleToken, functionName: string, additional: Option<seq<(string, string)>>)
      returns (formData: seq<(string, string)>)
      requires t.token.Some?
      ensures |formData| >= 2 && formData[..2] == FormDataHead(t, functionName)
      ensures additional.None? ==> |formData| == 2
      ensures additional.Some? ==> formData[2..] == additional.value
    {
      formData := [];
      formData := formData + [("wstoken", t.token.value)];
      formData := formData + [("wsfunction", functionName)];
      if additional.Some? {
        var entries := additional.value;
        var i := 0;
        while i < |entries|
          invariant 0 <= i <= |entries|
          invariant |formData| == 2 + i
          invariant formData[..2] == FormDataHead(t, functionName)
          invariant formData[2..] == entries[..i]
        {
          formData := formData + [entries[i]];
          i := i + 1;
        }
        assert entries[..i] == entries;
      }
    }

    /** `getCourseContentById`: the form data it sends, and the record it returns around the
        sections in the response, which carries the requested id. */
    method GetCourseContentById(courseId: int, responseSections: seq<MoodleCourseSection>)
      returns (formData: seq<(string, string)>, content: MoodleCourseContent)
      requires token.token.Some?
      ensures content.id == courseId && content.sections == responseSections
      ensures formData == FormDataHead(token, "core_course_get_contents") + CourseContentOptions(courseId)
      ensures formData[2] == ("courseid", Js.IntToString(courseId))
    {
      formData := GenerateFormData(token, "core_course_get_contents", Some(CourseContentOptions(courseId)));
      assert formData == formData[..2] + formData[2..];
      content := MoodleCourseContent(courseId, responseSections);
    }
  }

  /** The `courseid` entry reads back as the requested id. */
  lemma CourseIdEntryRoundTrip(courseId: int)
    ensures Js.ParseInt(CourseContentOptions(courseId)[0].1) == Some(courseId)
  {
    Js.ParseIntIntToString(courseId);
  }
}
