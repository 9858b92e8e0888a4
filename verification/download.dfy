/**
 * The text handling of the release downloader (`riseclipse_download.py`, both revisions):
 * finding the release title on the "latest release" page, reading the version out of it,
 * and building the download address of a given version. Fetching the page and the file
 * is not modelled: the page arrives as a parameter, `None` when fetching it failed.
 */
module Download {
  import opened Wrappers
  import opened PyStr
  import Versions

  const Site: string := "https://github.com/riseclipse/"
  const TitleTag: string := "<title>"

  /** The page that is fetched to learn the latest release of `repository`. */
  function LatestPageUrl(repository: string): string {
    Site + repository + "/releases/latest"
  }

  /** A line of the page holds the title when it starts with `<title>` once its leading whitespace is stripped. */
  predicate IsTitle(line: string) {
    StartsWith(LStripAscii(line), TitleTag)
  }

  /** Where a scan of `xs` from index `from` on stops: the first element satisfying `p`, or the end. */
  function FirstIndex<T>(xs: seq<T>, p: T -> bool, from: nat): (i: nat)
    requires from <= |xs|
    ensures from <= i <= |xs|
    ensures i < |xs| ==> p(xs[i])
    ensures forall j :: from <= j < i ==> !p(xs[j])
    decreases |xs| - from
  {
    if from == |xs| || p(xs[from]) then from else FirstIndex(xs, p, from + 1)
  }

  /** The first title line of the page, stripped; `None` when no line is a title line. */
  function TitleLine(page: seq<string>): (r: Option<string>)
    ensures r.None? <==> forall k :: 0 <= k < |page| ==> !IsTitle(page[k])
    ensures r.Some? ==> StartsWith(r.value, TitleTag)
    ensures r.Some? ==> exists k :: 0 <= k < |page| && r.value == LStripAscii(page[k])
                                  && forall j :: 0 <= j < k ==> !IsTitle(page[j])
  {
    var i := FirstIndex(page, IsTitle, 0);
    if i < |page| then Some(LStripAscii(page[i])) else None
  }

  /** What a release title must start with: `<title>Release <repository> v`. */
  function ReleasePrefix(repository: string): string {
    TitleTag + "Release " + repository + " v"
  }

  /**
   * The version named by a title: `None` when the title does not start with the release
   * prefix, otherwise the first token after the prefix read as a version, which raises
   * `IndexError` when nothing follows and `ValueError` for a non-numeric part.
   */
  function VersionFromTitle(repository: string, title: string): (r: Result<Option<seq<int>>, Exception>)
    ensures !StartsWith(title, ReleasePrefix(repository)) ==> r == Success(None)
    ensures r.Failure? ==> r.error == IndexError || r.error == ValueError
    ensures r.Success? && r.value.Some? ==> |r.value.value| > 0
  {
    var start := ReleasePrefix(repository);
    if !StartsWith(title, start) then Success(None)
    else
      match Versions.LeadingVersion(title[|start|..])
      case Failure(e) => Failure(e)
      case Success(v) => Success(Some(v))
  }

  /**
   * `get_latest_version(repository)` on the fetched page: `None` when fetching failed, when
   * there is no title line or when it is not a release title; otherwise the version it names.
   */
  function LatestVersion(repository: string, page: Option<seq<string>>): (r: Result<Option<seq<int>>, Exception>)
    ensures page.None? ==> r == Success(None)
    ensures page.Some? && TitleLine(page.value).None? ==> r == Success(None)
    ensures page.Some? && TitleLine(page.value).Some? ==> r == VersionFromTitle(repository, TitleLine(page.value).value)
  {
    if page.None? then Success(None)
    else
      match TitleLine(page.value)
      case None => Success(None)
      case Some(title) => VersionFromTitle(repository, title)
  }

  /**
   * The address `download_version(repository, name, version, ...)` fetches: the release tag
   * `<repository>-<v>` and the file `<name>-<v>.jar`, where `v` is the first three components
   * written as `'%d.%d.%d'`; fewer than three components raise `IndexError`.
   */
  function DownloadUrl(repository: string, name: string, version: seq<int>): (r: Result<string, Exception>)
    ensures r.Failure? <==> |version| < 3
    ensures r.Failure? ==> r.error == IndexError
  {
    match Versions.TripleText(version)
    case Failure(e) => Failure(e)
    case Success(v) =>
      Success(Site + repository + "/releases/download/" + repository + "-" + v + "/" + name + "-" + v + ".jar")
  }

  /** The version text in the address reads back as the first three components of the version. */
  lemma DownloadUrlLayout(repository: string, name: string, version: seq<int>)
    requires |version| >= 3
    ensures var v := Versions.TripleText(version).value;
            && DownloadUrl(repository, name, version).value
               == Site + repository + "/releases/download/" + repository + "-" + v + "/" + name + "-" + v + ".jar"
            && Versions.ParseVersion(v) == Some(version[..3])
  {
    Versions.TripleTextRoundTrip(version);
  }

  /** Leading ASCII whitespace followed by the title tag strips to the tagged text. */
  lemma TitleAfterPadding(pad: string, rest: string)
    requires forall i :: 0 <= i < |pad| ==> IsAsciiSpace(pad[i])
    requires StartsWith(rest, TitleTag)
    ensures LStripAscii(pad + rest) == rest
  {
    assert rest[0] == TitleTag[0];
    LStripAsciiPrefix(pad, rest);
  }

  /** A release title starts with the title tag. */
  lemma ReleaseTitleIsTitle(repository: string, text: string)
    ensures StartsWith(ReleasePrefix(repository) + text, TitleTag)
    ensures StartsWith(ReleasePrefix(repository) + text, ReleasePrefix(repository))
  {
    var t := ReleasePrefix(repository) + text;
    assert t[..|TitleTag|] == TitleTag;
    assert t[..|ReleasePrefix(repository)|] == ReleasePrefix(repository);
  }

  /** A release title for version `v`, followed by whitespace and more text or by nothing, names `v`. */
  lemma VersionFromReleaseTitle(repository: string, v: seq<int>, tail: string)
    requires |v| > 0
    requires tail == [] || IsSpace(tail[0])
    ensures VersionFromTitle(repository, ReleasePrefix(repository) + (Versions.VersionText(v) + tail)) == Success(Some(v))
  {
    var text := Versions.VersionText(v) + tail;
    var title := ReleasePrefix(repository) + text;
    ReleaseTitleIsTitle(repository, text);
    assert title[|ReleasePrefix(repository)|..] == text;
    Versions.LeadingVersionOf(v, tail);
  }

  /**
   * A page whose first title line is the release title of `repository` for version `v`,
   * possibly indented and followed by whitespace and more text, yields `v`.
   */
  lemma LatestVersionRoundTrip(repository: string, before: seq<string>, pad: string, v: seq<int>, tail: string, after: seq<string>)
    requires |v| > 0
    requires forall k :: 0 <= k < |before| ==> !IsTitle(before[k])
    requires forall i :: 0 <= i < |pad| ==> IsAsciiSpace(pad[i])
    requires tail == [] || IsSpace(tail[0])
    ensures LatestVersion(repository, Some(before + [pad + (ReleasePrefix(repository) + (Versions.VersionText(v) + tail))] + after))
         == Success(Some(v))
  {
    var title := ReleasePrefix(repository) + (Versions.VersionText(v) + tail);
    var page := before + [pad + title] + after;
    ReleaseTitleIsTitle(repository, Versions.VersionText(v) + tail);
    TitleAfterPadding(pad, title);
    assert page[|before|] == pad + title;
    TitleLineAt(page, |before|);
    VersionFromReleaseTitle(repository, v, tail);
  }

  /** The title line is the stripped first line that is a title line. */
  lemma TitleLineAt(page: seq<string>, k: nat)
    requires k < |page| && IsTitle(page[k])
    requires forall j :: 0 <= j < k ==> !IsTitle(page[j])
    ensures TitleLine(page) == Some(LStripAscii(page[k]))
  {
    var i := FirstIndex(page, IsTitle, 0);
    assert i == k;
  }
}
