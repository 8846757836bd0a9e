/**
 * The locator of a student's report image: a fixed origin, the
 * URI-component encoding of the name, and `.jpg`.
 */
module ReportLocator {
  import opened Wrappers
  import opened JsString
  import opened NameValidation
  import opened UriComponent

  const ReportOrigin: Str := Units("https://goldencpa.oss-cn-shanghai.aliyuncs.com/")

  const ImageSuffix: Str := Units(".jpg")

  /** The path segment between the origin and the suffix. */
  function Segment(url: Str): (segment: Str)
    requires |ReportOrigin| + |ImageSuffix| <= |url|
    ensures |segment| == |url| - |ReportOrigin| - |ImageSuffix|
  {
    url[|ReportOrigin|..|url| - |ImageSuffix|]
  }

  /**
   * The image URL for a name: the origin, the encoded name, the suffix. It
   * depends on the name only (there is no retry count among its inputs),
   * and building it fails exactly when the encoding throws.
   */
  function ReportUrl(name: Str): (r: Option<Str>)
    ensures r.Some? <==> IsWellFormed(name)
    ensures r.Some? ==>
      |ReportOrigin| + |ImageSuffix| <= |r.value|
      && r.value == ReportOrigin + Segment(r.value) + ImageSuffix
      && Segment(r.value) == EncodeUriComponent(name).value
  {
    var encoded := EncodeUriComponent(name);
    if encoded.None? then None
    else
      var url := ReportOrigin + encoded.value + ImageSuffix;
      assert Segment(url) == encoded.value;
      Some(url)
  }

  /**
   * The segment of a name's URL is one path segment (only `%` and
   * unreserved characters, so no `/`, `?` or `#`), and percent-decoding it
   * gives the name back.
   */
  lemma ReportUrlSegmentDecodes(name: Str)
    requires ReportUrl(name).Some?
    ensures var segment := Segment(ReportUrl(name).value);
      DecodeUriComponent(segment) == Some(name)
      && forall i :: 0 <= i < |segment| ==> segment[i] == Percent || IsUnreserved(segment[i])
  {
    var url := ReportUrl(name).value;
    assert Segment(url) == EncodeUriComponent(name).value;
    DecodeEncode(name);
  }

  /** Every name the checks accept has a locator. */
  lemma AcceptedNameHasUrl(name: Str)
    requires IsAcceptedName(name)
    ensures ReportUrl(name).Some?
  {
    AcceptedNameHasNoSurrogate(name);
    NoSurrogateIsWellFormed(name);
  }
}
