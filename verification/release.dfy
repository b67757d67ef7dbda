/** `get_release_page`: which release page is requested, what is reported
    about the answer, and when the program gives up. The HTTP request is a
    parameter: `get(url)` stands for what `requests.get(url)` yields. */
module Release {
  import opened Wrappers
  import opened Strings
  import opened Decimal
  import opened Terminal

  /** The repository's releases directory. */
  const RELEASES: string := "https://github.com/intel/compute-runtime/releases"
  /** `RELEASE_URL` up to its `{}` placeholder, which is its last part. */
  const RELEASE_URL_BASE: string := RELEASES + "/"

  /** `RELEASE_URL.format(arg)`. */
  function ReleaseUrl(arg: string): (url: string)
    ensures |url| == |RELEASE_URL_BASE| + |arg|
    ensures url[..|RELEASE_URL_BASE|] == RELEASE_URL_BASE && url[|RELEASE_URL_BASE|..] == arg
  {
    RELEASE_URL_BASE + arg
  }

  /** The page requested for a release token: `…/releases/latest` for
      `"latest"`, `…/releases/tag/<token>` for any other token. */
  function PageUrl(version: string): (url: string)
    ensures version == "latest" ==> url == ReleaseUrl("latest")
    ensures version != "latest" ==> url == ReleaseUrl("tag/" + version)
  {
    if version == "latest" then ReleaseUrl(version) else ReleaseUrl("tag/" + version)
  }

  /** Different tokens build different URLs: in particular no tag's URL is
      the latest release's URL. */
  lemma PageUrlInjective(v: string, w: string)
    requires PageUrl(v) == PageUrl(w)
    ensures v == w
  {
    var n := |RELEASE_URL_BASE|;
    var a, b := PageUrl(v), PageUrl(w);
    assert a[n..] == (if v == "latest" then v else "tag/" + v);
    assert b[n..] == (if w == "latest" then w else "tag/" + w);
    // "latest" and "tag/..." already differ in their first character
    assert a[n] == (if v == "latest" then 'l' else 't');
    assert b[n] == (if w == "latest" then 'l' else 't');
    if v != "latest" && w != "latest" {
      assert v == ("tag/" + v)[4..] == ("tag/" + w)[4..] == w;
    }
  }

  /** The release named by the final (redirected) URL: `url.split('/')[-1]`. */
  function VersionOf(url: string): (v: string)
    ensures '/' !in v
    ensures |v| <= |url| && url[|url| - |v|..] == v
    ensures |v| < |url| ==> url[|url| - |v| - 1] == '/'
  {
    LastSegmentIsTail(url, '/');
    LastSegment(url, '/')
  }

  /** Reading the release back from a tag page's URL gives the tag: when
      the latest-release request is redirected to the page of tag `t`, `t`
      is what gets reported. */
  lemma VersionOfPageUrl(t: string)
    requires '/' !in t
    ensures VersionOf(PageUrl(t)) == t
  {
    if t == "latest" {
      assert PageUrl(t) == RELEASES + ['/'] + t;
      LastSegmentAfter(RELEASES, '/', t);
    } else {
      assert PageUrl(t) == (RELEASES + "/tag") + ['/'] + t;
      LastSegmentAfter(RELEASES + "/tag", '/', t);
    }
  }

  /** What `requests.get` yields: a connection error, whose reason is the
      short text the installer extracts from it, or a response. `ok` is the
      response's truth value, `url` its final URL after redirects. */
  datatype Response =
    | ConnectionError(reason: string)
    | Received(ok: bool, statusCode: int, url: string, text: string)

  /** How `get_release_page` ends: with the page's HTML, or with `exit(code)`. */
  datatype Ending = PageText(html: string) | Exit(code: int)

  /** The status lines printed, in order, and how the call ends. */
  datatype Fetch = Fetch(log: seq<Line>, ending: Ending)

  /** The pending line printed before the request: one EMPTY message
      that names the token unless it is `"latest"`. */
  function Announce(version: string): (line: Line)
    ensures line.status == EMPTY && line.replace == None && |line.args| == 1
    ensures var m := line.args[0];
      version != "latest" ==> |m| == 31 + |version| && m[28..28 + |version|] == version
    ensures version == "latest" ==> line.args[0] == "Getting latest release details..."
  {
    if version == "latest" then Line(EMPTY, ["Getting latest release details..."], None)
    else Line(EMPTY, ["Getting details for release " + version + "..."], None)
  }

  /** The pending lines of two different tokens differ. */
  lemma AnnounceInjective(v: string, w: string)
    requires Announce(v) == Announce(w)
    ensures v == w
  {
    var a, b := Announce(v).args[0], Announce(w).args[0];
    // "Getting latest ..." and "Getting details ..." differ at position 8
    assert a[8] == (if v == "latest" then 'l' else 'd');
    assert b[8] == (if w == "latest" then 'l' else 'd');
    if v != "latest" && w != "latest" {
      assert |v| == |a| - 31 == |b| - 31 == |w|;
      assert v == a[28..28 + |v|] == b[28..28 + |w|] == w;
    }
  }

  /** The explanation printed under FAIL for an unsuccessful response. */
  function StatusMessage(statusCode: int): (m: string)
    ensures statusCode == 404 <==> m == "Release not found."
    ensures statusCode != 404 ==> |m| > 13 && m[..13] == "Status code: " && ParseInt(m[13..]) == Some(statusCode)
  {
    if statusCode == 404 then "Release not found."
    else
      var m := "Status code: " + IntToString(statusCode);
      assert m[13..] == IntToString(statusCode);
      IntRoundTrip(statusCode);
      assert m[0] != "Release not found."[0];
      m
  }

  /** The explanation printed under FAIL when the request does not give a
      truthy response: the connection error's reason, or the status code. */
  function Explanation(response: Response): (m: string)
    ensures response.ConnectionError? ==> m == "Encountered " + response.reason
    ensures response.Received? ==> m == StatusMessage(response.statusCode)
    // the two kinds of failure can be told apart by the first letter
    ensures |m| > 0 && (m[0] == 'E' <==> response.ConnectionError?)
  {
    match response
    case ConnectionError(reason) => "Encountered " + reason
    case Received(_, statusCode, _, _) => StatusMessage(statusCode)
  }

  /** `get_release_page(version)`. */
  function GetReleasePage(version: string, get: string -> Response): (r: Fetch)
    ensures |r.log| >= 2 && r.log[0] == Announce(version)
    // the page's text is returned exactly when the request gets an ok response
    ensures r.ending.PageText? <==> get(PageUrl(version)).Received? && get(PageUrl(version)).ok
    ensures r.ending.PageText? ==> r.ending.html == get(PageUrl(version)).text
    ensures r.ending.Exit? ==> r.ending.code == 1
    // the pending line is resolved by OK on success and FAIL otherwise
    ensures r.log[1] == Line(if r.ending.PageText? then OK else FAIL, [], None)
    // a failure is explained on one INFO line
    ensures r.ending.Exit? ==> |r.log| == 3 && r.log[2] == Line(INFO, [Explanation(get(PageUrl(version)))], None)
    // the latest release is named from the final URL, and only then
    ensures r.ending.PageText? ==>
      |r.log| == (if version == "latest" then 3 else 2)
      && (version == "latest" ==> r.log[2] == Line(INFO, ["Latest release: " + VersionOf(get(PageUrl(version)).url)], None))
  {
    var first := Announce(version);
    match get(PageUrl(version))
    case ConnectionError(reason) =>
      Fetch([first, Line(FAIL, [], None), Line(INFO, [Explanation(ConnectionError(reason))], None)], Exit(1))
    case Received(ok, statusCode, url, text) =>
      if ok then
        var report := if version == "latest" then [Line(INFO, ["Latest release: " + VersionOf(url)], None)] else [];
        Fetch([first, Line(OK, [], None)] + report, PageText(text))
      else
        Fetch([first, Line(FAIL, [], None), Line(INFO, [Explanation(Received(ok, statusCode, url, text))], None)], Exit(1))
  }

  /** For the latest release, a redirect to the page of tag `t` reports `t`. */
  lemma LatestReportsTag(get: string -> Response, t: string)
    requires '/' !in t
    requires get(PageUrl("latest")).Received? && get(PageUrl("latest")).ok
    requires get(PageUrl("latest")).url == PageUrl(t)
    ensures GetReleasePage("latest", get).log[2] == Line(INFO, ["Latest release: " + t], None)
  {
    VersionOfPageUrl(t);
  }
}
