/**
 * The NU crawler's link extraction (`extract_pdf_links_with_label_check` and
 * `get_download_links` in crawl/nu/crawl_main.py): a `re.findall` of the pattern
 * `\*?\s*\[([^\]]*\.pdf[^\]]*)\]\((https?://[^\s\)]*\.pdf)[^\)]*\)`, written out as a
 * matcher at one position and a left-to-right scan.
 */
module NuLinks {
  import opened Wrappers
  import opened Text
  import opened Scan

  /** The pattern's two groups: the link text and the URL. */
  datatype LinkGroups = LinkGroups(linkText: string, url: string)

  /** One match of the pattern. */
  type NuMatch = Hit<LinkGroups>

  /** An extracted link: `{'text': ..., 'download_url': ...}`. */
  datatype PdfLink = PdfLink(text: string, downloadUrl: string)

  /** The shape every extracted URL has. */
  predicate PdfUrlShaped(url: string) {
    && (StartsWith(url, "http://") || StartsWith(url, "https://"))
    && EndsWith(url, ".pdf") && NoSpace(url) && ')' !in url
  }

  /** The scheme and the solid run after it hold neither blanks nor `)`. */
  lemma SolidUrl(s: string, u: nat, v: nat, e: nat, scheme: string)
    requires scheme in {"https://", "http://"} && OccursAt(s, scheme, u) && v == u + |scheme|
    requires v <= e <= |s|
    requires forall j :: v <= j < e ==> !IsSpace(s[j]) && s[j] != ')'
    ensures NoSpace(s[u..e]) && ')' !in s[u..e]
  {
    var url := s[u..e];
    forall j | 0 <= j < |url|
      ensures !IsSpace(url[j]) && url[j] != ')'
    {
      assert url[j] == s[u + j];
      if j < |scheme| {
        assert s[u + j] == s[u..v][j] == scheme[j];
      }
    }
  }

  /** A slice that starts at a scheme and ends after `.pdf` has the URL's two ends. */
  lemma UrlEnds(s: string, u: nat, e: nat, scheme: string)
    requires OccursAt(s, scheme, u) && u + |scheme| + 4 <= e <= |s| && EndsAt(s, ".pdf", e)
    ensures StartsWith(s[u..e], scheme) && EndsWith(s[u..e], ".pdf")
  {
    var url := s[u..e];
    assert url[..|scheme|] == s[u..u + |scheme|];
    assert url[|url| - 4..] == s[e - 4..e];
  }

  /**
   * `(https?://[^\s\)]*\.pdf)[^\)]*\)` at `u`: the URL group takes the longest `.pdf`-ending
   * prefix of the run of non-blank, non-`)` characters after the scheme, and the match
   * goes on to the first `)` at or after the URL. Gives the URL's end and the match's end.
   */
  function UrlAt(s: string, u: nat): (r: Option<(nat, nat)>)
    requires u <= |s|
    ensures r.Some? ==> u < r.value.0 < r.value.1 <= |s| && PdfUrlShaped(s[u..r.value.0])
  {
    var scheme := if OccursAt(s, "https://", u) then "https://" else "http://";
    if !OccursAt(s, scheme, u) then None
    else
      var v := u + |scheme|;
      var stop := SolidRunEnd(s, ')', v);
      var e := LastEndOf(s, ".pdf", v, stop);
      if e.None? then None
      else
        var paren := FindChar(s, ')', e.value);
        if paren.None? then None
        else
          SolidUrl(s, u, v, e.value, scheme);
          UrlEnds(s, u, e.value, scheme);
          Some((e.value, paren.value + 1))
  }

  /**
   * The match of the pattern starting at `p`, if any. The optional `*` and the greedy
   * `\s*` can only be followed by `[`; the link text runs to the first `]`, must contain
   * `.pdf` and be followed by `(`; the URL part is `UrlAt`.
   */
  function MatchAt(s: string, p: nat): (r: Option<NuMatch>)
    requires p <= |s|
    ensures r.Some? ==> r.value.start == p && p < r.value.end <= |s|
  {
    TextThenUrl(s, p, SkipSpaces(s, if p < |s| && s[p] == '*' then p + 1 else p))
  }

  /** The rest of the pattern once `\*?\s*` has been consumed up to `q`. */
  function TextThenUrl(s: string, p: nat, q: nat): (r: Option<NuMatch>)
    requires p <= q <= |s|
    ensures r.Some? ==> r.value.start == p && q < r.value.end <= |s|
  {
    if q == |s| || s[q] != '[' then None
    else
      var close := FindChar(s, ']', q + 1);
      if close.None? || !Contains(s[q + 1..close.value], ".pdf") then None
      else if close.value + 1 == |s| || s[close.value + 1] != '(' then None
      else
        var url := UrlAt(s, close.value + 2);
        if url.None? then None
        else Some(Hit(p, LinkGroups(s[q + 1..close.value], s[close.value + 2..url.value.0]), url.value.1))
  }

  /**
   * A match's link text holds `.pdf` and no `]`, and its URL starts with a scheme,
   * ends with `.pdf` and holds no blank and no `)`.
   */
  lemma MatchAtSound(s: string, p: nat)
    requires p <= |s| && MatchAt(s, p).Some?
    ensures Contains(MatchAt(s, p).value.groups.linkText, ".pdf") && ']' !in MatchAt(s, p).value.groups.linkText
    ensures PdfUrlShaped(MatchAt(s, p).value.groups.url)
  {
    var q := SkipSpaces(s, if p < |s| && s[p] == '*' then p + 1 else p);
    var close := FindChar(s, ']', q + 1);
    SliceAvoids(s, ']', q + 1, close.value);
  }

  /** The match at every position of `s`, the last entry standing for the end of the text. */
  function NuTable(s: string): (tab: seq<Option<NuMatch>>)
    ensures |tab| == |s| + 1 && IsMatchTable(tab)
    ensures forall k :: 0 <= k < |tab| ==> tab[k] == MatchAt(s, k)
  {
    seq(|s| + 1, k requires 0 <= k <= |s| => MatchAt(s, k))
  }

  /** All matches of the pattern in `s`, left to right. */
  function NuMatches(s: string): seq<NuMatch> {
    FindAll(NuTable(s), 0)
  }

  /** The list built over the matches: the link text stripped, the URL kept as matched. */
  function Links(ms: seq<NuMatch>): (r: seq<PdfLink>)
    ensures |r| == |ms|
    ensures forall i :: 0 <= i < |r| ==> r[i] == PdfLink(Strip(ms[i].groups.linkText), ms[i].groups.url)
  {
    if ms == [] then [] else [PdfLink(Strip(ms[0].groups.linkText), ms[0].groups.url)] + Links(ms[1..])
  }

  /** `extract_pdf_links_with_label_check(markdown)` */
  function ExtractPdfLinksWithLabelCheck(markdown: string): (r: seq<PdfLink>)
    ensures |r| == |NuMatches(markdown)|
  {
    Links(NuMatches(markdown))
  }

  /** A link whose stripped text holds `.pdf` and whose URL has the pattern's shape. */
  predicate SoundLink(l: PdfLink) {
    Contains(l.text, ".pdf") && Strip(l.text) == l.text && PdfUrlShaped(l.downloadUrl)
  }

  /** The link made from one match is sound. */
  lemma LinkOfMatchSound(s: string, m: NuMatch)
    requires m.start <= |s| && MatchAt(s, m.start) == Some(m)
    ensures SoundLink(PdfLink(Strip(m.groups.linkText), m.groups.url))
  {
    MatchAtSound(s, m.start);
    assert NoSpace(".pdf");
    StripKeepsSolidInfix(m.groups.linkText, ".pdf");
    StripIdempotent(m.groups.linkText);
  }

  /**
   * Every extracted link has a stripped link text that still contains `.pdf`, and a URL that
   * starts with `http://` or `https://`, ends with `.pdf` and holds no blank and no `)`.
   */
  lemma ExtractedLinksAreSound(markdown: string)
    ensures |ExtractPdfLinksWithLabelCheck(markdown)| == |NuMatches(markdown)|
    ensures forall l <- ExtractPdfLinksWithLabelCheck(markdown) :: SoundLink(l)
  {
    var tab := NuTable(markdown);
    var ms := NuMatches(markdown);
    var r := ExtractPdfLinksWithLabelCheck(markdown);
    FindAllMatches(tab, 0);
    forall i | 0 <= i < |r|
      ensures SoundLink(r[i])
    {
      assert MatchAt(markdown, ms[i].start) == tab[ms[i].start] == Some(ms[i]);
      LinkOfMatchSound(markdown, ms[i]);
    }
  }

  /**
   * The matches behind the links are in order and do not overlap, and no position the
   * scan passed over (before the first match, between two, after the last) starts one.
   */
  lemma ExtractedMatchesAreLeftmost(markdown: string)
    ensures InOrder(NuMatches(markdown))
    ensures NoMatchBetween(NuTable(markdown), NuMatches(markdown))
    ensures NoMatchIn(NuTable(markdown), 0, FirstStart(|markdown|, NuMatches(markdown)))
    ensures NoMatchIn(NuTable(markdown), LastEnd(NuMatches(markdown), 0), |markdown|)
  {
    FindAllIsLeftmost(NuTable(markdown), 0);
    OrderedHits(NuMatches(markdown));
  }

  /** `get_download_links(markdown)`: the extracted links, or None when there are none. */
  function GetDownloadLinks(markdown: string): (r: Option<seq<PdfLink>>)
    ensures r.None? <==> ExtractPdfLinksWithLabelCheck(markdown) == []
    ensures r.Some? ==> r.value == ExtractPdfLinksWithLabelCheck(markdown) && |r.value| > 0
  {
    var links := ExtractPdfLinksWithLabelCheck(markdown);
    if links == [] then None else Some(links)
  }
}
