# Resumable PDF download pipeline, in Dafny

This project models the download side of the `web_scraping_101` crawlers. These are the parts that decide which
URLs to fetch, how a download is retried, what a saved file is called, and what the result
store holds after a run that can be resumed:

- **NU crawler** (`crawl/nu/crawl_main.py`). A retrying downloader with a 100-character,
  always-`.pdf` file name. A Markdown link extractor that checks the label, and the per-page
  aggregation into a metadata record. The `main` loop over handle ids 1..999, which skips
  any id already in `download_results.json` and rewrites the file after every id.
- **ThaiJo runner** (`crawl/thaijo/fetch_pdf_urls.py`). The page fetch that captures PDF
  responses, with its DOM fallback. A second retrying downloader that keeps the extension and
  gives up on any status other than 200 and 429. The Google Drive share-link rewrite and the
  Drive downloader with its confirmation-token step. The runner, which skips only URLs that
  already have a `download_link`.
- **ThaiJo Markdown utilities** (`crawl/thaijo/utils.py`, duplicated in
  `crawl/thaijo/crawl_main.py`). The H2-suffix extraction, the `[label](url "title")` pair
  extractor, the case-insensitive PDF link extractor and the `links` flattening.
- **PDF utilities** (`utils/pdf_operations.py`). The HEAD content-type filter, the
  skip-if-exists download loop, and the collection of unique stripped URLs from `.txt` files.

## How the model is built

The world outside the program is a set of parameters:
- the answer the network gives to the n-th request of a URL: `Net`, or `Remote` for the
  utilities, which ask each URL once;
- the clock read at the n-th attempt: `Clocks`;
- what a browser visit shows: `Browser`;
- what a crawl of a page returns.

Each downloader is a pure specification function that returns a `Trace`. A trace holds the
result, the URLs requested in order, the back-offs (`Sleep(attempt, jitterLo, jitterHi)`,
meaning `2^attempt + uniform(lo, hi)` seconds) and the file operations. An imperative method
with the source's attempt loop is proved to perform exactly that trace on a `FileSystem`
object whose `files` map it updates in place. The result stores are classes whose `results`
map is updated in place and whose `disk` is rewritten on save. Regular expressions are
hand-written scanners for the specific patterns. A table of match-or-not per position, with
a leftmost, non-overlapping `FindAll`, gives `re.findall` order.

Modules:
- `Wrappers` (Option and Result)
- `Text` (strip, splitting, decimal printing)
- `Files` (file operations, `os.path.join`, `basename` and `splitext`)
- `Scan` (findall over match tables)
- `Http` (responses, sleeps and traces)
- `NuFetch`, `NuLinks`, `NuBatch`
- `ThaijoDownload`, `GoogleDrive`, `ThaijoFetch`, `ThaijoBatch`, `ThaijoUtils`
- `PdfOperations`

## Model

| member | source | states |
|---|---|---|
| Text.StripIsTrimmedInfix | crawl/nu/crawl_main.py:200 | `str.strip()` gives the infix of the string left after dropping its leading and trailing whitespace, none of which remains at either end |
| Text.StripIdempotent | utils/pdf_operations.py:122 | stripping a stripped line changes nothing |
| Text.NatToStringInjective | crawl/nu/crawl_main.py:292 | `str(index)` gives distinct keys for distinct indices, so one id never shadows another in the store |
| Text.ParsePrinted | crawl/nu/crawl_main.py:301-302 | the decimal text of an index reads back as that index |
| Files.FileSystem.constructor | crawl/nu/crawl_main.py:108 | the file system starts from the given files |
| Files.FileSystem.Create | crawl/nu/crawl_main.py:108 | `open(path, "wb")` leaves the path holding an empty file and changes no other path |
| Files.FileSystem.Append | crawl/nu/crawl_main.py:109-111 | `f.write(chunk)` extends the file at that path by the chunk and changes nothing else |
| Files.FileSystem.Remove | crawl/nu/crawl_main.py:124-125 | `os.remove(path)` takes exactly that path away |
| Files.JoinBasename | crawl/thaijo/fetch_pdf_urls.py:258 | the base name of `os.path.join(dir, name)` is `name` when `name` has no `/` |
| Files.SplitExt | crawl/thaijo/fetch_pdf_urls.py:104 | `os.path.splitext` splits a name into a root and an extension that concatenate back to it |
| Files.SplitExtShape | crawl/thaijo/fetch_pdf_urls.py:104 | for a name without `/`, the extension is empty or a dot followed by no other dot after a root that is not all dots, and it is empty only when the name has no dot outside its leading dots |
| Http.UrlBasename | crawl/nu/crawl_main.py:90 | the last `/` segment before `?` holds neither `/` nor `?` |
| Http.FileBase | crawl/nu/crawl_main.py:90-92 | the base name used for a download (or `file_<epoch>` when the segment is empty) is never empty and has no `/` |
| NuFetch.NuStem | crawl/nu/crawl_main.py:94-101 | the stem is a prefix of the base name, at most 100 characters long |
| NuFetch.NuExt | crawl/nu/crawl_main.py:94-96 | the extension is always `.pdf` in some letter case |
| NuFetch.NuFilenameShape | crawl/nu/crawl_main.py:90-102 | the file name is a prefix of the base name of at most 100 characters, then `_<timestamp>`, then a `.pdf` extension in some letter case |
| NuFetch.NuFilenameKeepsPdfName | crawl/nu/crawl_main.py:94-101 | a base name that already ends in `.pdf` (any case) and has a stem of at most 100 characters is kept whole, with `_<timestamp>` inserted before its own extension |
| NuFetch.NuAttemptTable | crawl/nu/crawl_main.py:83-173 | one attempt returns the path iff a 200 arrived whole and non-empty with a Content-Length that parses; returns None iff 403/404; 429 backs off 2^a+[1,5]; 5xx, other statuses, transport errors, a broken stream and a Content-Length that `int()` rejects back off 2^a+[1,3]; an empty body is written then removed with no back-off; only a 200 whose length parses touches the disk, and only the attempt's path |
| NuFetch.NuAttempt | crawl/nu/crawl_main.py:73-173 | an attempt that ends the call never backs off |
| NuFetch.NuRetryRemovesEmptyFile | crawl/nu/crawl_main.py:119-126 | an attempt that goes on to the next one without a broken stream leaves no file it did not find and changes none that remain |
| NuFetch.NuLoopCeiling | crawl/nu/crawl_main.py:71-180 | at most `max_retries` GETs, all of the URL, at least one when any attempt is allowed; no attempts left gives None; a call that returns a path or stops early was stopped by its last attempt's decision |
| NuFetch.NuResultSource | crawl/nu/crawl_main.py:83-180 | a returned path is that of the last attempt, whose 200 body was complete and non-empty; if no attempt gets such a body, the result is None |
| NuFetch.NuTerminalStatus | crawl/nu/crawl_main.py:136-139 | a 403 or 404 ends the call at once with None: one GET, no back-off, no file |
| NuFetch.NuAlwaysRateLimited | crawl/nu/crawl_main.py:129-134 | a server that always answers 429 gets exactly `max_retries` GETs, each followed by a back-off of 2^a+[1,5] for increasing a, and no file is written |
| NuFetch.NuBackoffSchedule | crawl/nu/crawl_main.py:129-173 | at most one back-off per GET, their attempt indices strictly increase and stay below `max_retries`, and every jitter is [1,3] or [1,5] |
| NuFetch.NuOnlyOwnPaths | crawl/nu/crawl_main.py:102-126 | a path no attempt saves to is left exactly as it was |
| NuFetch.NuSuccessLeavesFile | crawl/nu/crawl_main.py:119-121 | a returned path names a file that exists afterwards and is non-empty |
| NuFetch.NuFailureLeavesNoNewFile | crawl/nu/crawl_main.py:119-180 | when no stream breaks, a call that returns None adds no file and changes none that remain, because empty files are removed (a file that already stood at an attempt's path is overwritten empty and removed) |
| NuFetch.NuBrokenStreamKeepsPartialFile | crawl/nu/crawl_main.py:155-173 | when every attempt from some point on retries and the last attempt's stream breaks mid-body, the call returns None and that attempt's file holds exactly the chunks that arrived |
| NuFetch.StreamToFile | crawl/nu/crawl_main.py:105-112 | writing the chunks leaves the file holding their concatenation and returns its size as `downloaded_size` |
| NuFetch.Attempt | crawl/nu/crawl_main.py:73-173 | one pass of the loop body decides, backs off and changes the files exactly as the attempt table says |
| NuFetch.RetryLoop | crawl/nu/crawl_main.py:71-180 | the attempt loop returns, requests, sleeps and changes the files exactly as the loop specification does |
| NuFetch.DownloadPdfWithRetries | crawl/nu/crawl_main.py:30-180 | `download_pdf_with_retries` performs exactly the NU download trace, with attempt k saving under the name built from clock k |
| NuLinks.UrlAt | crawl/nu/crawl_main.py:193 | the URL group found at a position starts with `http://` or `https://`, ends with `.pdf` and has no whitespace and no `)` |
| NuLinks.MatchAtSound | crawl/nu/crawl_main.py:193 | a match has a label that contains `.pdf` and no `]`, and a URL of that shape |
| NuLinks.Links | crawl/nu/crawl_main.py:195-203 | one link per match, in match order, holding the stripped label and the URL |
| NuLinks.ExtractedLinksAreSound | crawl/nu/crawl_main.py:183-204 | every extracted link has a stripped label containing `.pdf` and an `http(s)://...pdf` URL without whitespace or `)` |
| NuLinks.ExtractedMatchesAreLeftmost | crawl/nu/crawl_main.py:193-198 | the matches are in order, do not overlap, and are the leftmost ones: no match starts before the first, between two, or after the last |
| NuLinks.ExtractPdfLinksWithLabelCheck | crawl/nu/crawl_main.py:183-204 | `extract_pdf_links_with_label_check` gives one link per match of the pattern |
| NuLinks.GetDownloadLinks | crawl/nu/crawl_main.py:227-238 | None exactly when the page has no PDF link, otherwise all of them |
| NuBatch.LinkTraces | crawl/nu/crawl_main.py:251-262 | one download per link, in link order |
| NuBatch.SavedPathsEmpty | crawl/nu/crawl_main.py:261-280 | no path is collected exactly when every download returned None |
| NuBatch.SavedPathsFromResults | crawl/nu/crawl_main.py:256-262 | every collected path was returned by one of the downloads |
| NuBatch.TracesStep | crawl/nu/crawl_main.py:251-262 | each further link adds its own path, if any, and its own file operations |
| NuBatch.Basenames | crawl/nu/crawl_main.py:276 | `downloaded_filename` lists the base name of each saved path, in order |
| NuBatch.NuCrawlMetadata | crawl/nu/crawl_main.py:241-280 | metadata exists iff the page has Markdown with a PDF link and at least one download succeeded; it then records the URL, all links, and between one and as many file names as links |
| NuBatch.NuCrawlOfFoundLinks | crawl/nu/crawl_main.py:250-280 | once the page's links are known, metadata exists iff one of their downloads returned a path; it then names the page, all the links, and between one and as many file names as links |
| NuBatch.LinkTracesSave | crawl/nu/crawl_main.py:251-265 | the collected paths are non-empty iff some link's download returned a path |
| NuBatch.NuFilenameSlashFree | crawl/nu/crawl_main.py:99-101 | with a timestamp free of `/`, the file name is a plain name ending in `.pdf` in some letter case |
| NuBatch.NuPathName | crawl/nu/crawl_main.py:102 | the base name of the save path is that file name |
| NuBatch.LinkDownloadPath | crawl/nu/crawl_main.py:102-121 | a saved path is the one some attempt's clock named |
| NuBatch.LinkDownloadName | crawl/nu/crawl_main.py:256-276 | a saved file's base name ends in `.pdf` in some letter case |
| NuBatch.NuCrawlNames | crawl/nu/crawl_main.py:272-280 | every recorded file name ends in `.pdf` in some letter case and has no `/` |
| NuBatch.SavedNamesArePdf | crawl/nu/crawl_main.py:251-276 | every path saved by the downloads of a page's links has a base name ending in `.pdf` in some letter case |
| NuBatch.NothingSavedWithoutCompleteBody | crawl/nu/crawl_main.py:272-280 | without a complete non-empty 200 anywhere, the crawl returns None |
| NuBatch.NuCrawlOfLinks | crawl/nu/crawl_main.py:250-280 | given the page's links, the crawl is their downloads, with metadata only when something was saved |
| NuBatch.DownloadAll | crawl/nu/crawl_main.py:251-262 | the download loop collects exactly the saved paths and changes the files exactly as the downloads do |
| NuBatch.CrawlAndDownloadPdf | crawl/nu/crawl_main.py:241-280 | `crawl_and_download_pdf` returns the crawl's metadata and changes the files as its downloads do |
| NuBatch.RecordFor | crawl/nu/crawl_main.py:289-310 | the record of an id names its handle URL, and has a link list exactly when it has file names |
| NuBatch.Crawls | crawl/nu/crawl_main.py:284-289 | one crawl per id below 1000 |
| NuBatch.NuRunRecords | crawl/nu/crawl_main.py:285-312 | after ids below `hi`, no loaded key is lost or changed, every id has a key, a new key holds its crawl's record, and no other key appears |
| NuBatch.NuRunKeepsLoaded | crawl/nu/crawl_main.py:285-312 | a loaded record is never lost or changed, and an id not yet reached is present only if it was loaded |
| NuBatch.NuRunAddsIndexKeys | crawl/nu/crawl_main.py:285-312 | every key the run adds is `str(i)` of an id already processed |
| NuBatch.NuRunCovers | crawl/nu/crawl_main.py:285-312 | every id processed has a key, holding its crawl's record when it was not loaded |
| NuBatch.NuRunSkipsRecorded | crawl/nu/crawl_main.py:292-294 | a store that already has every id is left as it is and no file is touched |
| NuBatch.NuRunResumes | crawl/nu/crawl_main.py:285-312 | an interrupted run followed by a fresh run ends with the same store as one uninterrupted run |
| NuBatch.NuRerunIsIdle | crawl/nu/crawl_main.py:292-294 | running again over a finished store changes nothing and downloads nothing |
| NuBatch.NuStore.Load | crawl/nu/crawl_main.py:18-22 | the store starts from the file's records, or empty when there is no file |
| NuBatch.NuStore.Record | crawl/nu/crawl_main.py:302-310 | `results[key] = record` sets that key only |
| NuBatch.NuStore.Save | crawl/nu/crawl_main.py:25-27 | the file is rewritten with the whole store |
| NuBatch.HandleIndex | crawl/nu/crawl_main.py:289-312 | an id with a record is skipped with nothing touched; otherwise its crawl's record, or the all-None record, is added under `str(index)`, the whole store is saved and the crawl's file operations are applied |
| NuBatch.HandleNextIndex | crawl/nu/crawl_main.py:289-312 | one turn of `main`'s loop takes the store, the disk and the files from the run over ids below `index` to the run over one more id; the disk is untouched while every id so far was skipped, and holds the store otherwise |
| NuBatch.RunIndices | crawl/nu/crawl_main.py:285-312 | the loop over ids 1..999 ends with the run specification's store and files, and the store on disk once any id was processed |
| NuBatch.RunNu | crawl/nu/crawl_main.py:283-312 | `main` leaves the store and the files as the run specification says, and the file on disk holds the store once any id was processed |
| ThaijoDownload.TjExt | crawl/thaijo/fetch_pdf_urls.py:104-106 | the extension of the saved file starts with a dot |
| ThaijoDownload.TjFilenameKeepsBase | crawl/thaijo/fetch_pdf_urls.py:103-109 | the name is the whole base name with `_<timestamp>` before its extension; an existing extension is kept, `.pdf` is added only when there is none, and nothing is cut |
| ThaijoDownload.TjAttempt | crawl/thaijo/fetch_pdf_urls.py:99-130 | an attempt that ends the call never backs off |
| ThaijoDownload.TjAttemptTable | crawl/thaijo/fetch_pdf_urls.py:100-130 | one attempt returns the path iff a 200 arrived whole, even if empty; returns None iff the status is neither 200 nor 429; 429 backs off 2^a+[1,5]; transport errors and a broken stream back off 2^a+[1,3]; only a 200 writes, and only its path |
| ThaijoDownload.TjLoopCeiling | crawl/thaijo/fetch_pdf_urls.py:98-132 | at most `max_retries` GETs, all of the URL; no attempts left gives None; a call that stops early was stopped by its last attempt |
| ThaijoDownload.TjResultSource | crawl/thaijo/fetch_pdf_urls.py:102-132 | a returned path is the last attempt's, whose 200 was delivered; an early None comes from a status other than 200 and 429; no delivered 200 means None |
| ThaijoDownload.TjGivesUpOnOtherStatus | crawl/thaijo/fetch_pdf_urls.py:123-125 | any status other than 200 and 429, including 5xx, ends the call with one GET, no back-off and no file |
| ThaijoDownload.TjEmptyBodyIsSaved | crawl/thaijo/fetch_pdf_urls.py:102-115 | with no size check, any delivered 200 whose body is empty, at any attempt the loop reaches, is saved as an empty file and its path returned after that single GET |
| ThaijoDownload.TjSuccessLeavesFile | crawl/thaijo/fetch_pdf_urls.py:109-115 | a returned path names a file that holds the body of the attempt that returned it |
| ThaijoDownload.TjSavedAttempt | crawl/thaijo/fetch_pdf_urls.py:109-115 | an attempt that returns its path wrote exactly the response body there, and the file holds it |
| ThaijoDownload.Attempt | crawl/thaijo/fetch_pdf_urls.py:99-130 | one pass of the loop body acts exactly as the attempt table says |
| ThaijoDownload.RetryLoop | crawl/thaijo/fetch_pdf_urls.py:98-132 | the loop performs exactly the loop specification's trace |
| ThaijoDownload.DownloadPdfWithRetries | crawl/thaijo/fetch_pdf_urls.py:95-132 | `download_pdf_with_retries` performs exactly the ThaiJo download trace |
| GoogleDrive.IdRunEndShape | crawl/thaijo/fetch_pdf_urls.py:138-141 | the id group stops at the first character outside `[a-zA-Z0-9_-]` |
| GoogleDrive.FirstIdMatchIsLeftmost | crawl/thaijo/fetch_pdf_urls.py:138-141 | the search finds the leftmost marker followed by an id character, or reports that there is none |
| GoogleDrive.SearchIdShape | crawl/thaijo/fetch_pdf_urls.py:138-141 | an id is found exactly when the marker is followed by an id character somewhere, and it is a non-empty run of id characters |
| GoogleDrive.DriveFileIdIsId | crawl/thaijo/fetch_pdf_urls.py:138-143 | an id found after `/d/` or `id=` is made only of id characters |
| GoogleDrive.GetDownloadUrlFromGoogleDrive | crawl/thaijo/fetch_pdf_urls.py:135-145 | `get_download_url_from_google_drive` gives None iff no file id is found, and otherwise a URL starting with `https://drive.google.com/uc?export=download&id=` |
| GoogleDrive.DriveUrlRewrite | crawl/thaijo/fetch_pdf_urls.py:135-145 | a link is rewritten iff `/d/` or `id=` is followed by an id character; the result is `https://drive.google.com/uc?export=download&id=<id>`, and the `/d/` id wins whenever one exists |
| GoogleDrive.NoEarlyIdMarker | crawl/thaijo/fetch_pdf_urls.py:144 | the endpoint holds no `id=` before the one that precedes the id |
| GoogleDrive.DriveIdRoundTrip | crawl/thaijo/fetch_pdf_urls.py:186 | the text after the last `id=` of the endpoint is the id it was built from |
| Text.AfterLastSplitShape | crawl/thaijo/fetch_pdf_urls.py:186 | the last piece of `split(sep)` is a suffix of the text and holds no `sep` |
| GoogleDrive.ConfirmToken | crawl/thaijo/fetch_pdf_urls.py:158-162 | the token is the value of the first cookie, in jar order, whose name starts with `download_warning`; there is none iff no cookie has such a name |
| GoogleDrive.FindConfirmToken | crawl/thaijo/fetch_pdf_urls.py:158-162 | the cookie loop finds exactly that token |
| GoogleDrive.DriveFileNamedAfterId | crawl/thaijo/fetch_pdf_urls.py:186-188 | downloading a rewritten share link saves `<id>_<timestamp>.pdf`, where `id` is the share link's own id |
| GoogleDrive.DrivePathNamedAfterId | crawl/thaijo/fetch_pdf_urls.py:186-189 | the save path's base name is that name when the timestamp has no `/` |
| GoogleDrive.DriveAttempt | crawl/thaijo/fetch_pdf_urls.py:151-200 | an attempt that ends the call never backs off |
| GoogleDrive.DriveAttemptTable | crawl/thaijo/fetch_pdf_urls.py:150-200 | an answer without Content-Disposition needs a token: with one the confirmed URL is requested too, and without one the call gives up with None whatever the status; after that, 429 backs off 2^a+[1,5], any other non-200, transport error or broken stream backs off 2^a+[1,3], and a delivered 200 returns its path |
| GoogleDrive.DriveLoopCeiling | crawl/thaijo/fetch_pdf_urls.py:150-203 | at most `max_retries` attempts of one or two GETs, each of the URL or the URL with a confirmation appended; a returned path was delivered by some attempt |
| GoogleDrive.DriveStopsWithoutToken | crawl/thaijo/fetch_pdf_urls.py:164-170 | no Content-Disposition and no token ends the call at once, even on 429 or 200 |
| GoogleDrive.DriveRetriesServerErrors | crawl/thaijo/fetch_pdf_urls.py:178-182 | a server that always answers 503 gets `max_retries` GETs, each followed by a 2^a+[1,3] back-off, and no file |
| GoogleDrive.Attempt | crawl/thaijo/fetch_pdf_urls.py:151-200 | one pass of the loop body acts exactly as the attempt table says |
| GoogleDrive.RetryLoop | crawl/thaijo/fetch_pdf_urls.py:150-203 | the loop performs exactly the loop specification's trace |
| GoogleDrive.DownloadPdfFromGoogleDrive | crawl/thaijo/fetch_pdf_urls.py:148-203 | `download_pdf_from_google_drive` performs exactly the Drive download trace |
| ThaijoFetch.PdfResponsesShape | crawl/thaijo/fetch_pdf_urls.py:39-44 | the captured list is empty iff no response had `application/pdf` in its content type; its first element is the first such response's URL, and every element is such a URL |
| ThaijoFetch.FullUrlShape | crawl/thaijo/fetch_pdf_urls.py:68-70 | an href starting with `http` gives the page URL itself; any other href gives the page URL up to its last `/` (all of it when it has none), then `/`, then the href |
| ThaijoFetch.FetchAttempt | crawl/thaijo/fetch_pdf_urls.py:47-89 | a visit touches no file, and a visit that ends the call never backs off |
| ThaijoFetch.FetchAttemptTable | crawl/thaijo/fetch_pdf_urls.py:47-89 | one visit returns a URL iff it loaded without a 429 and offered one; a 429 always backs off, even on the last attempt; a failure or a page without PDFs backs off except on the last attempt; every back-off is 2^a+[1,3] |
| ThaijoFetch.FetchLoopCeiling | crawl/thaijo/fetch_pdf_urls.py:46-92 | at most `max_retries` visits, all of the URL, at most one back-off each, no file touched, and a returned URL was offered by a single visit |
| ThaijoFetch.FetchFirstOfferWins | crawl/thaijo/fetch_pdf_urls.py:48-72 | the first visit that loads without a 429 and offers a URL decides the result, whatever earlier visits captured |
| ThaijoFetch.FetchLoopFirstStepContinues | crawl/thaijo/fetch_pdf_urls.py:52-89 | a visit that finds nothing hands the result over to the next attempt |
| ThaijoFetch.PdfCapture.constructor | crawl/thaijo/fetch_pdf_urls.py:37 | the captured list starts empty |
| ThaijoFetch.PdfCapture.Clear | crawl/thaijo/fetch_pdf_urls.py:48 | `pdf_urls.clear()` empties the list |
| ThaijoFetch.PdfCapture.OnResponse | crawl/thaijo/fetch_pdf_urls.py:39-44 | the handler appends a response's URL exactly when its content type holds `application/pdf` |
| ThaijoFetch.Attempt | crawl/thaijo/fetch_pdf_urls.py:47-89 | one pass clears the list, captures the visit's PDF responses and decides as the attempt table says |
| ThaijoFetch.GetDownloadUrlFromFetch | crawl/thaijo/fetch_pdf_urls.py:36-92 | `get_download_url_from_fetch` performs exactly the fetch trace |
| ThaijoBatch.RecordOf | crawl/thaijo/fetch_pdf_urls.py:228-258 | the file name recorded for a URL, if any, has no `/` |
| ThaijoBatch.TjRunKeys | crawl/thaijo/fetch_pdf_urls.py:207-269 | the store ends with the loaded keys plus the listed URLs and no others; no key is removed; a skipped record and every unlisted record are kept |
| ThaijoBatch.RunStoreKeys | crawl/thaijo/fetch_pdf_urls.py:207-269 | for any record function, the store after the first n URLs has the loaded keys plus those URLs and no others, keeps every record that had a `download_link`, and keeps every unlisted record |
| ThaijoBatch.RunStoreEntry | crawl/thaijo/fetch_pdf_urls.py:220-258 | for any record function, a URL among the first n holds its loaded record if that had a `download_link`, else its own record |
| ThaijoBatch.TjRunIsRunStore | crawl/thaijo/fetch_pdf_urls.py:216-260 | the run over the environment is the store recursion with the records that processing writes |
| ThaijoBatch.StoreAfterIsRunStore | crawl/thaijo/fetch_pdf_urls.py:216-260 | a run in which each URL's processing writes `record(url)` builds the same store as the recursion over `record` |
| ThaijoBatch.TjRunEntry | crawl/thaijo/fetch_pdf_urls.py:220-258 | each listed URL holds its loaded record if that had a `download_link`, else the record of processing it |
| ThaijoBatch.TjRunFoundLink | crawl/thaijo/fetch_pdf_urls.py:220-258 | a `download_link` the run adds came from processing that URL |
| ThaijoBatch.RunStoreFoundLink | crawl/thaijo/fetch_pdf_urls.py:220-258 | for any record function, a `download_link` that a URL gains in the run is that of its own record |
| ThaijoBatch.TjRerunKeepsStore | crawl/thaijo/fetch_pdf_urls.py:220-258 | running the list again over the store it produced gives the same store |
| ThaijoBatch.RunStoreRerun | crawl/thaijo/fetch_pdf_urls.py:220-258 | for any record function, running the list again over the store it produced leaves the store as it is |
| ThaijoBatch.RecordFilenameSource | crawl/thaijo/fetch_pdf_urls.py:229-258 | a recorded file name means the link was truthy and the chosen downloader saved to a path with that base name |
| ThaijoBatch.DriveRecordNamedAfterId | crawl/thaijo/fetch_pdf_urls.py:186-241 | a Drive URL's recorded file is `<id>_<timestamp>.pdf` for the share link's own id |
| ThaijoBatch.TjStore.Load | crawl/thaijo/fetch_pdf_urls.py:24-28 | the store starts from the file's records, or empty when there is no file |
| ThaijoBatch.TjStore.Record | crawl/thaijo/fetch_pdf_urls.py:257-258 | `results[url] = {...}` sets that key only |
| ThaijoBatch.TjStore.Save | crawl/thaijo/fetch_pdf_urls.py:31-33 | the file is rewritten with the whole store |
| ThaijoBatch.ProcessUrl | crawl/thaijo/fetch_pdf_urls.py:228-258 | processing a URL builds its record and changes the files as its download does |
| ThaijoBatch.TjRunStep | crawl/thaijo/fetch_pdf_urls.py:216-260 | each further URL either is skipped or sets its own record and adds its own download's file operations |
| ThaijoBatch.HandleUrl | crawl/thaijo/fetch_pdf_urls.py:216-260 | one loop pass skips the URL, or records it and saves the store |
| ThaijoBatch.HandleNext | crawl/thaijo/fetch_pdf_urls.py:216-260 | one turn of the runner's loop takes the store, the disk and the files from the run over the first `index` URLs to the run over one more; the disk is untouched while every URL so far was skipped, and holds the store otherwise |
| ThaijoBatch.RunList | crawl/thaijo/fetch_pdf_urls.py:216-269 | the loop over the URL list ends with the run specification's store and files, and the store on disk once any URL was processed |
| ThaijoBatch.FetchAndDownloadPdfsFromUrls | crawl/thaijo/fetch_pdf_urls.py:206-269 | the runner returns the run's store, changes the files as its downloads do, and leaves the store on disk whenever any URL was processed |
| ThaijoUtils.FirstH2 | crawl/thaijo/crawl_main.py:21-60 | in `crawl_main.py`'s copy of `extract_markdown_from_h2`, textually the same as the one in `utils.py`, the search finds the leftmost line start holding `##`, then any whitespace (line breaks included, as `\s*` spans them), the target, then whitespace up to a line end; or it reports that there is none |
| ThaijoUtils.ExtractMarkdownFromH2 | crawl/thaijo/utils.py:14-53 | a result is a suffix of the file's content that starts with `##` |
| ThaijoUtils.H2Extraction | crawl/thaijo/utils.py:14-53 | a file that cannot be opened or read (missing, a directory, not UTF-8; the `except Exception` path) gives None; otherwise the result exists iff a match of `^##\s*<target>\s*$` under MULTILINE exists, and it is the suffix of the content from the first one, starting with `##` |
| ThaijoUtils.LinkMatchSound | crawl/thaijo/utils.py:68 | a match has a stripped caption without a line break and a non-empty URL without whitespace |
| ThaijoUtils.Pairs | crawl/thaijo/crawl_main.py:79-80 | one pair per match, in order, holding the match's caption and URL |
| ThaijoUtils.ExtractMarkdownLinksAsJson | crawl/thaijo/utils.py:56-73 | `extract_markdown_links_as_json` gives one pair per match of the pattern |
| ThaijoUtils.ExtractedPairsAreSound | crawl/thaijo/utils.py:56-73 | one sound `{label: url}` pair per match, in order, with the matches leftmost and non-overlapping |
| ThaijoUtils.LinkTable | crawl/thaijo/crawl_main.py:75-77 | the pattern of `crawl_main.py`'s copy of `extract_markdown_links_as_json`, textually the same as the one in `utils.py`, is scanned once per position, and `findall` keeps the leftmost non-overlapping matches |
| ThaijoUtils.SchemeEnd | crawl/thaijo/utils.py:90 | the scheme matched is `http://` or `https://` in any letter case |
| ThaijoUtils.PdfMatchSound | crawl/thaijo/utils.py:90 | a match has a caption holding `pdf` in any case and no `]`, and an `http(s)://` URL in any case without `)` |
| ThaijoUtils.Urls | crawl/thaijo/utils.py:92-95 | one URL per match, in order |
| ThaijoUtils.ExtractPdfLinksFromMarkdown | crawl/thaijo/utils.py:76-95 | `extract_pdf_links_from_markdown` is an error exactly when its input is not a string |
| ThaijoUtils.ExtractedPdfUrlsAreSound | crawl/thaijo/utils.py:76-95 | non-string input is an error (the ValueError) and only it; otherwise one URL per match, in order, each from such a match |
| ThaijoUtils.FlattenConcat | crawl/thaijo/utils.py:111-115 | flattening two item lists one after the other gives the concatenation of their flattenings |
| ThaijoUtils.FlattenMembers | crawl/thaijo/utils.py:111-115 | a URL is in the result iff some item's `links` holds it |
| ThaijoUtils.ItemWithoutLinksAddsNothing | crawl/thaijo/utils.py:113-114 | an item without `links` contributes nothing |
| ThaijoUtils.GetPdfLinksFromJson | crawl/thaijo/utils.py:98-115 | the loop's `all_links` is the concatenation of every item's `links`, in order |
| PdfOperations.KeptPdfs | utils/pdf_operations.py:21-43 | the kept URLs are never more than the URLs checked |
| PdfOperations.KeptPdfsMembers | utils/pdf_operations.py:23-40 | a URL is kept iff it is in the input and its HEAD succeeded with a content type holding `pdf` in any case |
| PdfOperations.KeptPdfsSubsequence | utils/pdf_operations.py:21-43 | the kept URLs are an order-preserving subsequence of the input |
| PdfOperations.CheckPdfDownloadable | utils/pdf_operations.py:9-43 | the HEAD loop returns exactly the kept URLs |
| PdfOperations.PdfFilename | utils/pdf_operations.py:63-65 | the file name always ends in `.pdf` |
| PdfOperations.PdfFilenameShape | utils/pdf_operations.py:63-65 | the name has no `/` and ends in `.pdf`; it starts with the last URL segment, or `downloaded_pdf` when that is empty; the segment is kept as it is iff it already ends in `.pdf` (case-sensitively) |
| PdfOperations.PdfTargetNamedAfterUrl | utils/pdf_operations.py:67 | the target's base name is that file name |
| PdfOperations.FilesAfterConcat | utils/pdf_operations.py:60-87 | two batches one after the other act as their concatenation |
| PdfOperations.NeverOverwrites | utils/pdf_operations.py:69-72 | a file that exists before the batch is never overwritten or removed |
| PdfOperations.OnlyTargetsCreated | utils/pdf_operations.py:67-79 | every new file is the target of one of the URLs |
| PdfOperations.FreshTargetRequested | utils/pdf_operations.py:69-87 | whatever happened to the URLs before it, a URL whose target does not exist yet is requested, so an error on one URL never stops the rest |
| PdfOperations.FreshTargetSaved | utils/pdf_operations.py:69-80 | a URL whose target does not exist yet and whose GET succeeds ends up, whole, in that file, and stays there |
| PdfOperations.DownloadOne | utils/pdf_operations.py:61-87 | one pass of the loop creates the target from a good answer when it is absent, and touches nothing otherwise |
| PdfOperations.SaveBody | utils/pdf_operations.py:78-79 | copying the body block by block leaves the file holding exactly their concatenation, and no other file changes |
| PdfOperations.DownloadPdfs | utils/pdf_operations.py:46-89 | `download_pdfs` leaves the files, and issues the GETs, exactly as the batch specification says |
| PdfOperations.LinesSplitAtBreaks | utils/pdf_operations.py:121 | the lines `for line in f` yields, endings dropped, are exactly the text cut at its line breaks: no line holds a break, there is one more line than breaks, gluing the lines back with those breaks in order gives the text, and a text without breaks is one line |
| PdfOperations.LineUrlsMembers | utils/pdf_operations.py:121-124 | a URL comes from some lines iff it is the non-empty strip of one of them |
| PdfOperations.EntryUrlsMembers | utils/pdf_operations.py:118-124 | a file contributes exactly the non-empty stripped lines of a `.txt` file |
| PdfOperations.EntriesUrlsMembers | utils/pdf_operations.py:115-127 | the folder's URLs are exactly the non-empty stripped lines of its `.txt` files |
| PdfOperations.FolderUrlsExact | utils/pdf_operations.py:108-145 | a missing folder gives the empty set; otherwise a URL is collected iff it is a non-empty stripped line of a `.txt` file, and every collected URL is already stripped |
| PdfOperations.AddLineUrls | utils/pdf_operations.py:121-124 | the line loop adds exactly the non-empty stripped lines to the set |
| PdfOperations.RetrieveUniqueUrls | utils/pdf_operations.py:92-145 | `retrieve_unique_urls` returns exactly the folder's URLs |

## Left out

- Browser rendering (crawl4ai, Playwright, `page.goto`, the settle wait, `query_selector_all`) is not modelled. A visit is an input: the main response's status, the responses seen, the page URL and the anchors' hrefs. Handlers that pile up over repeated `page.on` calls are not modelled either: the list is cleared before each visit, so only the current visit's PDF responses are read.
- The `requests` session, its retry adapter and `session.close` are foreign library calls. The network is a function from (URL, attempt) to an outcome: an answer with status, content type, Content-Disposition, whether a Content-Length header fails to parse as an integer, cookies, body chunks and whether the stream broke; a timeout; or a connection error.
- The environment is deterministic. Requesting the same URL again in another call sees the same answers, and a HEAD or GET in the PDF utilities is one answer per URL.
- `time.sleep` and `random.uniform` are not modelled as values. Each back-off is recorded as its attempt index and jitter range, that is `2^attempt + uniform(lo, hi)` seconds, with no floating point. The float progress percentage and the logging are left out.
- `datetime.now()` and `time.time()` are inputs: each attempt's clock reading, as a timestamp string and an epoch number.
- JSON reading and writing is not modelled. A store on disk is a map, or none when the file is missing. Decoding errors are not modelled.
- NU writes integer keys but looks up string keys. The model keys the store by the decimal text of the id, which is what a reload from JSON gives.
- The `.xlsx` branch of `retrieve_unique_urls` uses pandas and is not modelled. Other files are skipped, as the source does.
- A `.txt` read error after part of the file was read is not modelled.
- `open` in text mode is approximated by splitting at `\n` and `\r`. A `\r\n` pair gives an extra empty line, which the non-empty test drops anyway.
- The listing order of `os.listdir` does not matter, because the result is a set.
- Directory creation (`os.makedirs`) and an `OSError` on `open` are not modelled. A write always succeeds.
- Files.SplitExt: its own contract states only that root and extension concatenate back to the name. The dot rules are stated by `Files.SplitExtShape`, so that callers which only need the concatenation do not pay for them.
- PdfOperations.DownloadPdfs: the source returns nothing; the model returns the GETs issued, so the skip rule can be stated.
- PdfOperations.CheckPdfDownloadable: a HEAD that raises is modelled as an answer that does not serve a PDF, which the source logs and skips.
- Python's regular-expression engine is not modelled. Each pattern the source uses is a hand-written scanner with the same leftmost, greedy or backtracking choice.
- `\s` is the whitespace set of `str.isspace`. Full Unicode case folding under `re.IGNORECASE` is approximated by ASCII case plus `ſ` (U+017F) matching `s`.
- When the Drive downloader runs out of attempts and no attempt reached the save step, the give-up log line reads a `file_id` that was never assigned and raises a NameError; when some attempt did (a 200 whose stream then broke), it logs and returns None. The model returns None in both cases, which is what the caller sees after catching the error.
- Saved file names assume timestamps without `/`, which is what `strftime("%Y%m%d_%H%M%S")` gives. The lemmas that speak of base names take this as a precondition.
- The runners' outer `try/except`, SerpAPI, the command-line glue, SSL checks, path bootstrapping and the test script are not modelled.
