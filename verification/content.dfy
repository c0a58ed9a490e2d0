/** Page retrieval (`retrieve_page_information`): the URL is given a scheme when it has none, and
    the extracted text is stripped and capped. The request to the reader service is not made here:
    its outcome is an input. */
module Content {
  import opened Options
  import opened Text

  const Http := "http://"
  const Https := "https://"

  /** The longest page text passed on unabridged, in characters. */
  const MaxContent: nat := 10000

  /** What follows the kept part of a page that was too long. */
  const TruncationMarker := "\n... (content truncated)"

  predicate HasScheme(url: string) {
    StartsWith(url, Http) || StartsWith(url, Https)
  }

  /** The URL handed to the reader service: `https://` is put in front of a URL that starts with
      neither `http://` nor `https://`, and any other URL is left as it is. */
  function NormalizeUrl(url: string): (r: string)
    ensures HasScheme(r)
  {
    if HasScheme(url) then url
    else
      var r := Https + url;
      assert r[..|Https|] == Https;
      r
  }

  /** A URL is changed exactly when it has no scheme, and then by putting `https://` in front. */
  lemma NormalizeKeepsUrl(url: string)
    ensures NormalizeUrl(url) == url <==> HasScheme(url)
    ensures !HasScheme(url) ==> NormalizeUrl(url) == Https + url
    ensures var r := NormalizeUrl(url); |r| >= |url| && r[|r| - |url|..] == url
  {
  }

  /** Normalising twice is normalising once. */
  lemma NormalizeIdempotent(url: string)
    ensures NormalizeUrl(NormalizeUrl(url)) == NormalizeUrl(url)
  {
  }

  /** The page text that is passed on: the stripped text itself when it is at most `MaxContent`
      characters long, otherwise its first `MaxContent` characters and the truncation marker. */
  function TruncateContent(text: string): (r: string)
    ensures |r| <= MaxContent + |TruncationMarker|
    ensures |Strip(text)| <= MaxContent ==> r == Strip(text)
    ensures |Strip(text)| > MaxContent ==>
      && |r| == MaxContent + |TruncationMarker|
      && r[..MaxContent] == Strip(text)[..MaxContent]
      && r[MaxContent..] == TruncationMarker
    ensures r == [] <==> AllSpace(text)
  {
    var content := Strip(text);
    if |content| > MaxContent then content[..MaxContent] + TruncationMarker else content
  }

  /** A page whose stripped text is 15000 characters long is cut to exactly 10000 characters
      followed by the marker. */
  lemma LongPageTruncated(text: string)
    requires |Strip(text)| == 15000
    ensures |TruncateContent(text)| == 10000 + |TruncationMarker|
    ensures TruncateContent(text)[..10000] == Strip(text)[..10000]
  {
  }

  /** What the reader service did for the request: failed (network, status or extraction error),
      or returned the page as text. */
  datatype PageOutcome = PageFailed | PageText(body: string)

  /** The content `retrieve_page_information` returns: nothing on failure, otherwise the capped
      page text, which is empty exactly when the page was blank. */
  function PageContent(outcome: PageOutcome): (r: Option<string>)
    ensures r.None? <==> outcome.PageFailed?
  {
    match outcome
    case PageFailed => None
    case PageText(body) => Some(TruncateContent(body))
  }

  /** Retrieved content is never longer than the cap and the marker, and it is empty exactly when
      the page was blank. */
  lemma PageContentBounded(outcome: PageOutcome)
    requires outcome.PageText?
    ensures var r := PageContent(outcome);
      && r.Some?
      && |r.value| <= MaxContent + |TruncationMarker|
      && (r.value == [] <==> AllSpace(outcome.body))
  {
  }
}
