/**
 * `get_download_url_from_fetch` (crawl/thaijo/fetch_pdf_urls.py): load an article page
 * in the browser, collect the URLs of the responses that carry a PDF while it loads, and
 * return the first; failing that, fall back to the first `.pdf` anchor of the page.
 * The browser is an input: what a visit of a URL at a given attempt yields.
 */
module ThaijoFetch {
  import opened Wrappers
  import opened Text
  import opened Http

  /**
   * What one visit of a page yields: the main response's status (None when `page.goto`
   * returns no response), the (content type, URL) of every response seen while the page
   * settles, the final page URL and the `href` of each `a[href$='.pdf']`; or an exception.
   */
  datatype Visit =
    | Loaded(status: Option<int>, responses: seq<(string, string)>, pageUrl: string, anchors: seq<Option<string>>)
    | Failed

  /** The visit of a URL at attempt `n`. */
  type Browser = (string, nat) -> Visit

  /** The response handler's test: `"application/pdf"` in the content type. */
  predicate IsPdfResponse(r: (string, string)) {
    Contains(r.0, "application/pdf")
  }

  /** The list the handler builds while a visit's responses arrive: the PDF responses' URLs, in arrival order. */
  function PdfResponses(rs: seq<(string, string)>): seq<string>
    decreases |rs|
  {
    if rs == [] then []
    else
      var last := rs[|rs| - 1];
      PdfResponses(rs[..|rs| - 1]) + (if IsPdfResponse(last) then [last.1] else [])
  }

  /**
   * The captured list is empty exactly when no response is a PDF; otherwise its first URL
   * is that of the first PDF response, and every URL in it is that of a PDF response.
   */
  lemma PdfResponsesShape(rs: seq<(string, string)>)
    ensures var r := PdfResponses(rs);
      && (r == [] <==> forall i :: 0 <= i < |rs| ==> !IsPdfResponse(rs[i]))
      && (r != [] ==> exists i :: 0 <= i < |rs| && IsPdfResponse(rs[i]) && r[0] == rs[i].1
                                  && forall j :: 0 <= j < i ==> !IsPdfResponse(rs[j]))
      && (forall k :: 0 <= k < |r| ==> exists i :: 0 <= i < |rs| && IsPdfResponse(rs[i]) && rs[i].1 == r[k])
  {
    PdfResponsesEmpty(rs);
    PdfResponsesFirst(rs);
    forall k | 0 <= k < |PdfResponses(rs)|
      ensures exists i :: 0 <= i < |rs| && IsPdfResponse(rs[i]) && rs[i].1 == PdfResponses(rs)[k]
    {
      PdfResponsesFromPdf(rs, k);
    }
  }

  lemma {:induction false} PdfResponsesEmpty(rs: seq<(string, string)>)
    ensures PdfResponses(rs) == [] <==> forall i :: 0 <= i < |rs| ==> !IsPdfResponse(rs[i])
    decreases |rs|
  {
    if rs != [] {
      var front := rs[..|rs| - 1];
      PdfResponsesEmpty(front);
      assert forall i :: 0 <= i < |front| ==> front[i] == rs[i];
    }
  }

  lemma {:induction false} PdfResponsesFirst(rs: seq<(string, string)>)
    ensures var r := PdfResponses(rs);
      r != [] ==> exists i :: 0 <= i < |rs| && IsPdfResponse(rs[i]) && r[0] == rs[i].1
                              && forall j :: 0 <= j < i ==> !IsPdfResponse(rs[j])
    decreases |rs|
  {
    if rs != [] {
      var front := rs[..|rs| - 1];
      PdfResponsesFirst(front);
      assert forall i :: 0 <= i < |front| ==> front[i] == rs[i];
      if PdfResponses(front) == [] {
        PdfResponsesEmpty(front);
      }
    }
  }

  lemma {:induction false} PdfResponsesFromPdf(rs: seq<(string, string)>, k: nat)
    requires k < |PdfResponses(rs)|
    ensures exists i :: 0 <= i < |rs| && IsPdfResponse(rs[i]) && rs[i].1 == PdfResponses(rs)[k]
    decreases |rs|
  {
    var front := rs[..|rs| - 1];
    if k < |PdfResponses(front)| {
      PdfResponsesFromPdf(front, k);
      var i :| 0 <= i < |front| && IsPdfResponse(front[i]) && front[i].1 == PdfResponses(front)[k];
      assert front[i] == rs[i];
    } else {
      assert IsPdfResponse(rs[|rs| - 1]) && rs[|rs| - 1].1 == PdfResponses(rs)[k];
    }
  }

  /**
   * The DOM fallback's join: the page URL itself when the href starts with `http`, else
   * the page URL up to its last `/`, then `/`, then the href.
   */
  function FullUrl(pageUrl: string, href: string): string {
    if StartsWith(href, "http") then pageUrl else BeforeLast(pageUrl, '/') + "/" + href
  }

  /**
   * An href starting with `http` gives the page URL; any other gives a prefix of the page
   * URL (all of it when it has no `/`, else up to its last `/`), then `/`, then the href.
   */
  lemma FullUrlShape(pageUrl: string, href: string)
    ensures var r := FullUrl(pageUrl, href);
      && (StartsWith(href, "http") ==> r == pageUrl)
      && (!StartsWith(href, "http") ==>
            var cut := |r| - |href| - 1;
            && 0 <= cut && EndsWith(r, "/" + href) && StartsWith(pageUrl, r[..cut])
            && ('/' in pageUrl ==> cut < |pageUrl| && pageUrl[cut] == '/' && '/' !in pageUrl[cut + 1..])
            && ('/' !in pageUrl ==> r[..cut] == pageUrl))
  {
    if !StartsWith(href, "http") {
      var base := BeforeLast(pageUrl, '/');
      BeforeLastShape(pageUrl, '/');
      var r := base + "/" + href;
      assert r[..|base|] == base;
      assert r[|r| - |href| - 1..] == "/" + href;
    }
  }

  /** The first anchor's href, when there is an anchor and its href is non-empty. */
  function FirstHref(anchors: seq<Option<string>>): Option<string> {
    if anchors != [] && anchors[0].Some? && anchors[0].value != [] then anchors[0] else None
  }

  /** What a visit that is not a 429 offers: the first PDF response, else the fallback link. */
  function Found(v: Visit): Option<string>
    requires v.Loaded?
  {
    var pdfs := PdfResponses(v.responses);
    if pdfs != [] then Some(pdfs[0])
    else
      var href := FirstHref(v.anchors);
      if href.Some? then Some(FullUrl(v.pageUrl, href.value)) else None
  }

  /** One attempt: the visit, then the 429 back-off, the captured PDF, the fallback, or the no-PDF back-off. */
  function FetchAttempt(url: string, a: nat, maxRetries: int, v: Visit): (sd: (Step, Decision))
    ensures sd.0.ops == []
    ensures sd.1.Return? ==> sd.0.sleep.None?
  {
    match v
    case Failed =>
      if a < maxRetries - 1 then (Step([url], Some(Sleep(a, 1, 3)), []), Continue)
      else (Step([url], None, []), Return(None))
    case Loaded(status, _, _, _) =>
      if status == Some(429) then (Step([url], Some(Sleep(a, 1, 3)), []), Continue)
      else if Found(v).Some? then (Step([url], None, []), Return(Found(v)))
      else if a < maxRetries - 1 then (Step([url], Some(Sleep(a, 1, 3)), []), Continue)
      else (Step([url], None, []), Continue)
  }

  /** The loop from attempt `a` on. */
  function FetchLoop(url: string, maxRetries: int, browser: Browser, a: nat): Trace
    decreases maxRetries - a
  {
    if a >= maxRetries then GiveUp
    else
      var sd := FetchAttempt(url, a, maxRetries, browser(url, a));
      if sd.1.Return? then Finish(sd.0, sd.1.result)
      else Then(sd.0, FetchLoop(url, maxRetries, browser, a + 1))
  }

  /** The whole call `get_download_url_from_fetch(page, url, max_retries)`. */
  function FetchDownloadUrl(url: string, maxRetries: int, browser: Browser): Trace {
    FetchLoop(url, maxRetries, browser, 0)
  }

  /**
   * One attempt's table. It visits the page once. It returns a URL exactly when the
   * visit loaded without a 429 and offered one; a 429 always backs off, even on the last
   * attempt; a failure or a page without a PDF backs off except on the last attempt.
   * Every back-off is 2^a + [1,3] s.
   */
  lemma FetchAttemptTable(url: string, a: nat, maxRetries: int, v: Visit)
    ensures var sd := FetchAttempt(url, a, maxRetries, v);
      && sd.0.requested == [url] && sd.0.ops == []
      && (sd.1.Return? && sd.1.result.Some? <==> v.Loaded? && v.status != Some(429) && Found(v).Some?)
      && (sd.1.Return? && sd.1.result.Some? ==> sd.1.result == Found(v) && sd.0.sleep.None?)
      && (sd.1.Return? && sd.1.result.None? <==> v.Failed? && a >= maxRetries - 1)
      && (v.Loaded? && v.status == Some(429) ==> sd == (Step([url], Some(Sleep(a, 1, 3)), []), Continue))
      && (sd.0.sleep.Some? <==> sd.1.Continue? && (a < maxRetries - 1 || v.status == Some(429)))
      && (sd.0.sleep.Some? ==> sd.0.sleep.value == Sleep(a, 1, 3))
  {
  }

  /** The visit `v` produced `u` on its own: the list is cleared before every visit. */
  predicate FoundOn(v: Visit, u: string) {
    v.Loaded? && v.status != Some(429) && Found(v) == Some(u)
  }

  /**
   * The attempt ceiling: at most `max_retries` visits, all of `url`, at most one back-off
   * per visit, each of 2^a + [1,3] s, and no file touched. A returned URL was offered by a single visit
   * (the first PDF seen during that visit, or its fallback link), never by an earlier one.
   */
  lemma {:induction false} FetchLoopCeiling(url: string, maxRetries: int, browser: Browser, a: nat)
    ensures var t := FetchLoop(url, maxRetries, browser, a);
      && |t.requested| <= (if a >= maxRetries then 0 else maxRetries - a)
      && (forall i :: 0 <= i < |t.requested| ==> t.requested[i] == url)
      && t.ops == [] && |t.sleeps| <= |t.requested|
      && (forall i :: 0 <= i < |t.sleeps| ==> t.sleeps[i].jitterLo == 1 && t.sleeps[i].jitterHi == 3)
      && (t.result.Some? ==> exists k: nat :: a <= k < maxRetries && FoundOn(browser(url, k), t.result.value))
    decreases maxRetries - a
  {
    if a < maxRetries {
      var sd := FetchAttempt(url, a, maxRetries, browser(url, a));
      FetchAttemptTable(url, a, maxRetries, browser(url, a));
      var t := FetchLoop(url, maxRetries, browser, a);
      if sd.1.Continue? {
        FetchLoopCeiling(url, maxRetries, browser, a + 1);
        var rest := FetchLoop(url, maxRetries, browser, a + 1);
        assert t.requested == [url] + rest.requested;
        assert t.sleeps == SleepsOf(sd.0) + rest.sleeps;
        assert t.result == rest.result;
      } else {
        assert t.requested == [url];
      }
    }
  }

  /**
   * The first visit that loads without a 429 and offers a URL decides the call: every earlier
   * visit failed, was a 429, or found nothing, and the call returns what that visit offered.
   */
  lemma {:induction false} FetchFirstOfferWins(url: string, maxRetries: int, browser: Browser, a: nat, k: nat)
    requires a <= k < maxRetries
    requires browser(url, k).Loaded? && browser(url, k).status != Some(429) && Found(browser(url, k)).Some?
    requires forall j: nat :: a <= j < k ==> browser(url, j).Failed? || browser(url, j).status == Some(429) || Found(browser(url, j)).None?
    requires forall j: nat :: a <= j < k ==> browser(url, j).Failed? ==> j < maxRetries - 1
    ensures FetchLoop(url, maxRetries, browser, a).result == Found(browser(url, k))
    decreases k - a
  {
    if a < k {
      FetchLoopFirstStepContinues(url, maxRetries, browser, a);
      FetchFirstOfferWins(url, maxRetries, browser, a + 1, k);
    }
  }

  lemma FetchLoopFirstStepContinues(url: string, maxRetries: int, browser: Browser, a: nat)
    requires a < maxRetries
    requires browser(url, a).Failed? ==> a < maxRetries - 1
    requires browser(url, a).Failed? || browser(url, a).status == Some(429) || Found(browser(url, a)).None?
    ensures FetchLoop(url, maxRetries, browser, a).result == FetchLoop(url, maxRetries, browser, a + 1).result
  {
  }

  /** The list `pdf_urls` that the registered response handler fills. */
  class PdfCapture {
    var pdfUrls: seq<string>

    constructor ()
      ensures pdfUrls == []
    {
      pdfUrls := [];
    }

    /** `pdf_urls.clear()` */
    method Clear()
      modifies this
      ensures pdfUrls == []
    {
      pdfUrls := [];
    }

    /** `handle_response(response)` */
    method OnResponse(contentType: string, url: string)
      modifies this
      ensures pdfUrls == old(pdfUrls) + (if IsPdfResponse((contentType, url)) then [url] else [])
    {
      if Contains(contentType, "application/pdf") {
        pdfUrls := pdfUrls + [url];
      }
    }
  }

  /** One pass of the loop body: clear the list, let the visit's responses arrive, then decide. */
  method Attempt(url: string, attempt: nat, maxRetries: int, visit: Visit, capture: PdfCapture)
    returns (done: bool, result: Option<string>, sleep: Option<Sleep>)
    modifies capture
    ensures var sd := FetchAttempt(url, attempt, maxRetries, visit);
      && done == sd.1.Return? && (done ==> result == sd.1.result) && sleep == sd.0.sleep
    ensures capture.pdfUrls == (if visit.Loaded? then PdfResponses(visit.responses) else [])
  {
    done, result, sleep := false, None, None;
    capture.Clear();
    if visit.Failed? {
      if attempt < maxRetries - 1 {
        sleep := Some(Sleep(attempt, 1, 3));
      } else {
        done := true;
      }
      return;
    }
    var responses := visit.responses;
    var i := 0;
    while i < |responses|
      invariant 0 <= i <= |responses|
      invariant capture.pdfUrls == PdfResponses(responses[..i])
    {
      assert responses[..i + 1][..i] == responses[..i];
      capture.OnResponse(responses[i].0, responses[i].1);
      i := i + 1;
    }
    assert responses[..i] == responses;
    if visit.status == Some(429) {
      sleep := Some(Sleep(attempt, 1, 3));
      return;
    }
    if capture.pdfUrls != [] {
      done, result := true, Some(capture.pdfUrls[0]);
      return;
    }
    var anchors := visit.anchors;
    if |anchors| > 0 {
      var href := anchors[0];
      if href.Some? && href.value != [] {
        var pageUrl := visit.pageUrl;
        var fullUrl := if StartsWith(href.value, "http") then pageUrl else BeforeLast(pageUrl, '/') + "/" + href.value;
        done, result := true, Some(fullUrl);
        return;
      }
    }
    if attempt < maxRetries - 1 {
      sleep := Some(Sleep(attempt, 1, 3));
    }
  }

  /** `get_download_url_from_fetch(page, url, max_retries)`: performs exactly the loop's trace. */
  method GetDownloadUrlFromFetch(url: string, maxRetries: int, browser: Browser)
    returns (found: Option<string>, visited: seq<string>, sleeps: seq<Sleep>)
    ensures var t := FetchDownloadUrl(url, maxRetries, browser);
      found == t.result && visited == t.requested && sleeps == t.sleeps
  {
    var capture := new PdfCapture();
    ghost var whole := FetchLoop(url, maxRetries, browser, 0);
    visited, sleeps := [], [];
    var attempt: nat := 0;
    assert whole == Prepend(visited, sleeps, [], FetchLoop(url, maxRetries, browser, attempt));
    while attempt < maxRetries
      invariant whole == Prepend(visited, sleeps, [], FetchLoop(url, maxRetries, browser, attempt))
      decreases maxRetries - attempt
    {
      ghost var sd := FetchAttempt(url, attempt, maxRetries, browser(url, attempt));
      FetchAttemptTable(url, attempt, maxRetries, browser(url, attempt));
      var done, result, sleep := Attempt(url, attempt, maxRetries, browser(url, attempt), capture);
      if done {
        PrependFinish(visited, sleeps, [], sd.0, result);
      } else {
        PrependThen(visited, sleeps, [], sd.0, FetchLoop(url, maxRetries, browser, attempt + 1));
      }
      visited := visited + [url];
      if sleep.Some? {
        sleeps := sleeps + [sleep.value];
      } else {
        assert sleeps + SleepsOf(sd.0) == sleeps;
      }
      if done {
        return result, visited, sleeps;
      }
      attempt := attempt + 1;
    }
    PrependGiveUp(visited, sleeps, []);
    found := None;
  }
}
