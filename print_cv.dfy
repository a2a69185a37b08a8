/**
 * Print-CV click handler (app.js, lines 84-102): on the CV page it prints;
 * elsewhere it opens `cv.html?print=1` in a popup and navigates the current
 * tab there only when no popup handle came back.
 */
module PrintCv {
  import opened Wrappers

  /**
   * The canonicalisation the `i` flag applies to the characters of `/\/cv\.html$/`:
   * ASCII letters compare without case; every other character compares as itself
   * (a non-ASCII character never canonicalises to an ASCII one).
   */
  function UpperAscii(c: char): char
  {
    if 'a' <= c <= 'z' then (c as int - 'a' as int + 'A' as int) as char else c
  }

  /** A string with `UpperAscii` applied to each character. */
  function Upper(s: string): (u: string)
    ensures |u| == |s|
    ensures forall k :: 0 <= k < |s| ==> u[k] == UpperAscii(s[k])
  {
    if s == [] then [] else Upper(s[..|s| - 1]) + [UpperAscii(s[|s| - 1])]
  }

  const CV_SUFFIX: string := "/cv.html"

  /** `s` ends with `suffix` when characters are compared without ASCII case, checked last character first. */
  function EndsWithIgnoringCase(s: string, suffix: string): (b: bool)
    ensures b <==> |suffix| <= |s| && Upper(s[|s| - |suffix|..]) == Upper(suffix)
    decreases |suffix|
  {
    if suffix == [] then true
    else if s == [] then false
    else
      UpperAscii(s[|s| - 1]) == UpperAscii(suffix[|suffix| - 1])
      && EndsWithIgnoringCase(s[..|s| - 1], suffix[..|suffix| - 1])
  }

  /** `/\/cv\.html$/i.test(pathname)`. */
  function IsOnCv(pathname: string): (b: bool)
    ensures b <==> |pathname| >= 8 && Upper(pathname[|pathname| - 8..]) == "/CV.HTML"
  {
    assert Upper(CV_SUFFIX) == "/CV.HTML";
    EndsWithIgnoringCase(pathname, CV_SUFFIX)
  }

  /** `cv.html` spelled in any ASCII case, in any directory, is recognised. */
  lemma CvPagesRecognised(dir: string, name: string)
    requires |name| == |CV_SUFFIX|
    requires forall k :: 0 <= k < |name| ==> UpperAscii(name[k]) == UpperAscii(CV_SUFFIX[k])
    ensures IsOnCv(dir + name)
  {
    var path := dir + name;
    assert path[|path| - 8..] == name;
    assert Upper(name) == Upper(CV_SUFFIX);
  }

  /** Other pages are not the CV page, including ones whose name merely contains it. */
  lemma OtherPagesNotCv(index: string, root: string, dirLike: string, longer: string, bare: string)
    requires index == "/index.html" && root == "/" && dirLike == "/cv.html/"
    requires longer == "/mycv.html" && bare == "cv.html"
    ensures !IsOnCv(index) && !IsOnCv(root) && !IsOnCv(dirLike) && !IsOnCv(longer) && !IsOnCv(bare)
  {
    assert Upper(index[3..])[0] == 'D';
    assert Upper(dirLike[1..])[7] == '/';
    assert Upper(longer[2..])[0] == 'Y';
  }

  const PRINT_QUERY: string := "?print=1"
  const POPUP_TARGET: string := "_blank"
  const POPUP_FEATURES: string := "noopener,noreferrer,width=960,height=1200"

  /**
   * `url.toString()` once `print=1` is set: `cvLocation` is the serialisation of
   * `new URL('cv.html', location.href)`, which has neither query nor fragment.
   */
  function PrintUrl(cvLocation: string): (url: string)
    ensures |url| == |cvLocation| + |PRINT_QUERY|
    ensures url[..|cvLocation|] == cvLocation && url[|cvLocation|..] == "?print=1"
  {
    cvLocation + PRINT_QUERY
  }

  /** A `window.open(url, target, features)` call. */
  datatype PopupRequest = PopupRequest(url: string, target: string, features: string)

  /** Everything one click on a `[data-print-cv]` element does. */
  datatype ClickEffects = ClickEffects(
    defaultPrevented: bool,
    printed: bool,
    popup: Option<PopupRequest>,
    navigatedTo: Option<string>)

  /**
   * The click handler. `popupHandleNull` is whether `window.open` returned no
   * window; it is consulted only after the popup was requested.
   */
  function OnPrintClick(pathname: string, cvLocation: string, popupHandleNull: bool): (e: ClickEffects)
    ensures e.defaultPrevented
    ensures IsOnCv(pathname) ==> e.printed && e.popup.None? && e.navigatedTo.None?
    ensures !IsOnCv(pathname) ==>
      && !e.printed
      && e.popup == Some(PopupRequest(cvLocation + "?print=1", "_blank", POPUP_FEATURES))
      && (e.navigatedTo.Some? <==> popupHandleNull)
      && (e.navigatedTo.Some? ==> e.navigatedTo.value == e.popup.value.url)
  {
    if IsOnCv(pathname) then
      ClickEffects(true, true, None, None)
    else
      var url := PrintUrl(cvLocation);
      var popup := PopupRequest(url, POPUP_TARGET, POPUP_FEATURES);
      ClickEffects(true, false, Some(popup), if popupHandleNull then Some(url) else None)
  }
}
