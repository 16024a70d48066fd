/**
 * The NU crawler's batch level (crawl/nu/crawl_main.py): `crawl_and_download_pdf`, which
 * downloads every PDF link found on one repository page and reports the successes, and
 * `main`, which walks the handle indices 1..999, skips those already in the metadata store
 * and records every other one, saving the store after each.
 */
module NuBatch {
  import opened Wrappers
  import opened Text
  import opened Files
  import opened Http
  import opened NuFetch
  import opened NuLinks

  /** `download_pdf_with_retries` is called with its default `max_retries`. */
  const MaxRetries: nat := 5

  /** `main` walks `range(1, MAX_ID)`. */
  const MaxId: nat := 1000

  /** The repository page of handle `i` is this prefix followed by `i`. */
  const HandlePrefix: string := "https://nuir.lib.nu.ac.th/dspace/handle/123456789/"

  /**
   * What the batch sees of the outside world: the markdown the browser crawl of a page
   * yields (None when the crawl fails), the PDF directory, the PDF servers and the clock.
   */
  datatype NuEnv = NuEnv(pages: string -> Option<string>, dir: string, net: Net, clocks: Clocks)

  /**
   * One entry of the metadata store. A page with a download holds its links and the saved
   * file names; any other processed page holds None in both.
   */
  datatype NuRecord = NuRecord(sourceUrl: string, downloadUrl: Option<seq<PdfLink>>, downloadedFilename: Option<seq<string>>)

  /** The download of one link, with the batch's settings. */
  function LinkDownload(link: PdfLink, env: NuEnv): Trace {
    NuDownload(link.downloadUrl, env.dir, MaxRetries, env.net, env.clocks)
  }

  /** The downloads of `links`, one per link, in order. */
  function LinkTraces(links: seq<PdfLink>, env: NuEnv): (ts: seq<Trace>)
    ensures |ts| == |links|
  {
    seq(|links|, i requires 0 <= i < |links| => LinkDownload(links[i], env))
  }

  /** The paths returned by a run of downloads, skipping the failures. */
  function SavedPaths(ts: seq<Trace>): (r: seq<string>)
    ensures |r| <= |ts|
  {
    if ts == [] then []
    else
      var t := ts[|ts| - 1];
      SavedPaths(ts[..|ts| - 1]) + (if t.result.Some? then [t.result.value] else [])
  }

  /** The file operations of a run of downloads. */
  function TraceOps(ts: seq<Trace>): seq<FileOp> {
    if ts == [] then [] else TraceOps(ts[..|ts| - 1]) + ts[|ts| - 1].ops
  }

  /** One more download extends the saved paths and the file operations by its own. */
  lemma TracesStep(ts: seq<Trace>, i: nat)
    requires i < |ts|
    ensures SavedPaths(ts[..i + 1]) == SavedPaths(ts[..i]) + (if ts[i].result.Some? then [ts[i].result.value] else [])
    ensures TraceOps(ts[..i + 1]) == TraceOps(ts[..i]) + ts[i].ops
  {
    assert ts[..i + 1][..i] == ts[..i];
  }

  /** Nothing is saved exactly when every download of the run returned None. */
  lemma {:induction false} SavedPathsEmpty(ts: seq<Trace>)
    ensures SavedPaths(ts) == [] <==> forall i :: 0 <= i < |ts| ==> ts[i].result.None?
    decreases |ts|
  {
    if ts != [] {
      var init := ts[..|ts| - 1];
      SavedPathsEmpty(init);
      assert forall i :: 0 <= i < |init| ==> init[i] == ts[i];
    }
  }

  /** Every saved path is the result of one of the downloads. */
  lemma {:induction false} SavedPathsFromResults(ts: seq<Trace>)
    ensures forall p <- SavedPaths(ts) :: exists i :: 0 <= i < |ts| && ts[i].result == Some(p)
    decreases |ts|
  {
    if ts != [] {
      var init := ts[..|ts| - 1];
      SavedPathsFromResults(init);
      forall p <- SavedPaths(ts)
        ensures exists i :: 0 <= i < |ts| && ts[i].result == Some(p)
      {
        if p in SavedPaths(init) {
          var i :| 0 <= i < |init| && init[i].result == Some(p);
          assert ts[i] == init[i];
        } else {
          assert ts[|ts| - 1].result == Some(p);
        }
      }
    }
  }

  /** `[os.path.basename(f) for f in paths]` */
  function Basenames(paths: seq<string>): (r: seq<string>)
    ensures |r| == |paths|
    ensures forall i :: 0 <= i < |r| ==> r[i] == Basename(paths[i])
  {
    seq(|paths|, i requires 0 <= i < |paths| => Basename(paths[i]))
  }

  /** The links of a crawled page, when the markdown is non-empty and holds any. */
  function PageLinks(markdown: Option<string>): Option<seq<PdfLink>> {
    if markdown.None? || markdown.value == [] then None else GetDownloadLinks(markdown.value)
  }

  /** `crawl_and_download_pdf(url)`: the metadata, or None. */
  function NuCrawl(url: string, env: NuEnv): Option<NuRecord> {
    var links := PageLinks(env.pages(url));
    if links.None? then None
    else
      var saved := SavedPaths(LinkTraces(links.value, env));
      if saved == [] then None else Some(NuRecord(url, links, Some(Basenames(saved))))
  }

  /** The file operations of `crawl_and_download_pdf(url)`. */
  function NuCrawlOps(url: string, env: NuEnv): seq<FileOp> {
    var links := PageLinks(env.pages(url));
    if links.None? then [] else TraceOps(LinkTraces(links.value, env))
  }

  /**
   * Metadata exists exactly when the page's markdown is non-empty, holds PDF links, and at
   * least one of them was saved; it then names the page, lists every link found, and one
   * file name per saved link (never more names than links).
   */
  lemma NuCrawlMetadata(url: string, env: NuEnv)
    ensures var m := NuCrawl(url, env);
      var md := env.pages(url);
      && (m.Some? <==> md.Some? && md.value != [] && ExtractPdfLinksWithLabelCheck(md.value) != []
                       && exists j :: 0 <= j < |ExtractPdfLinksWithLabelCheck(md.value)|
                            && LinkDownload(ExtractPdfLinksWithLabelCheck(md.value)[j], env).result.Some?)
      && (m.Some? ==>
            && m.value.sourceUrl == url
            && m.value.downloadUrl == Some(ExtractPdfLinksWithLabelCheck(md.value))
            && m.value.downloadedFilename.Some?
            && 1 <= |m.value.downloadedFilename.value| <= |ExtractPdfLinksWithLabelCheck(md.value)|)
  {
    var md := env.pages(url);
    if md.Some? && md.value != [] && ExtractPdfLinksWithLabelCheck(md.value) != [] {
      var links := ExtractPdfLinksWithLabelCheck(md.value);
      assert PageLinks(md) == Some(links);
      NuCrawlOfFoundLinks(url, env, links);
    } else {
      assert PageLinks(md).None?;
    }
  }

  /** With a page's links known, metadata exists exactly when one of their downloads saved a file. */
  lemma NuCrawlOfFoundLinks(url: string, env: NuEnv, links: seq<PdfLink>)
    requires PageLinks(env.pages(url)) == Some(links)
    ensures var m := NuCrawl(url, env);
      && (m.Some? <==> exists j :: 0 <= j < |links| && LinkDownload(links[j], env).result.Some?)
      && (m.Some? ==>
            && m.value.sourceUrl == url
            && m.value.downloadUrl == Some(links)
            && m.value.downloadedFilename.Some?
            && 1 <= |m.value.downloadedFilename.value| <= |links|)
  {
    NuCrawlOfLinks(url, env, links);
    LinkTracesSave(links, env);
  }

  /** A run of link downloads saves something exactly when one of the downloads returned a path. */
  lemma LinkTracesSave(links: seq<PdfLink>, env: NuEnv)
    ensures SavedPaths(LinkTraces(links, env)) != [] <==>
              exists j :: 0 <= j < |links| && LinkDownload(links[j], env).result.Some?
  {
    var ts := LinkTraces(links, env);
    SavedPathsEmpty(ts);
    if SavedPaths(ts) == [] {
      forall j | 0 <= j < |links| ensures LinkDownload(links[j], env).result.None? {
        assert ts[j] == LinkDownload(links[j], env);
      }
    } else {
      var j :| 0 <= j < |ts| && ts[j].result.Some?;
      assert ts[j] == LinkDownload(links[j], env);
    }
  }

  /** The clock's stamps are `%Y%m%d_%H%M%S`, which holds no `/`. */
  ghost predicate SlashFreeStamps(clocks: Clocks) {
    forall u, k :: '/' !in clocks(u, k).stamp
  }

  /** A saved file's name: no `/`, and a PDF extension in some letter case. */
  predicate PdfFileName(name: string) {
    '/' !in name && |name| >= 4 && IsPdfExt(name[|name| - 4..])
  }

  /** The file name of a saved download has no `/` in it. */
  lemma NuFilenameSlashFree(url: string, clock: Clock)
    requires '/' !in clock.stamp
    ensures PdfFileName(NuFilename(url, clock))
  {
    var stem := NuStem(url, clock);
    var ext := NuExt(url, clock);
    var b := FileBase(url, clock);
    assert forall i :: 0 <= i < |stem| ==> stem[i] == b[i];
    assert forall i :: 1 <= i < 4 ==> ext[i] != '/' by {
      assert LowerAscii('/') == '/';
    }
    var f := NuFilename(url, clock);
    assert f == stem + "_" + clock.stamp + ext;
    assert f[|f| - 4..] == ext;
  }

  /** A save path `<dir>/<name>` has a PDF file name as its basename. */
  lemma NuPathName(url: string, dir: string, clock: Clock)
    requires '/' !in clock.stamp
    ensures PdfFileName(Basename(NuPath(url, dir, clock)))
  {
    NuFilenameSlashFree(url, clock);
    JoinBasename(dir, NuFilename(url, clock));
  }

  /** A successful download returns the save path of one of its attempts. */
  lemma LinkDownloadPath(link: PdfLink, env: NuEnv)
    ensures var t := LinkDownload(link, env);
      t.result.Some? ==> exists k: nat :: t.result.value == NuPath(link.downloadUrl, env.dir, env.clocks(link.downloadUrl, k))
  {
    var u := link.downloadUrl;
    var paths := NuPaths(u, env.dir, env.clocks);
    var t := NuLoop(u, paths, MaxRetries, env.net, 0);
    NuResultSource(u, paths, MaxRetries, env.net);
    if t.result.Some? {
      var k: nat := |t.requested| - 1;
      assert t.result.value == paths(k);
    }
  }

  /** The path a successful download returns is `<dir>/<name>` with a PDF file name. */
  lemma LinkDownloadName(link: PdfLink, env: NuEnv)
    requires SlashFreeStamps(env.clocks)
    ensures var t := LinkDownload(link, env);
      t.result.Some? ==> PdfFileName(Basename(t.result.value))
  {
    var t := LinkDownload(link, env);
    LinkDownloadPath(link, env);
    if t.result.Some? {
      var u := link.downloadUrl;
      var k: nat :| t.result.value == NuPath(u, env.dir, env.clocks(u, k));
      NuPathName(u, env.dir, env.clocks(u, k));
    }
  }

  /** Every name in the metadata is the name of a saved PDF file: no `/`, a PDF extension. */
  lemma NuCrawlNames(url: string, env: NuEnv)
    requires SlashFreeStamps(env.clocks)
    ensures var m := NuCrawl(url, env);
      m.Some? ==> forall f <- m.value.downloadedFilename.value :: PdfFileName(f)
  {
    var links := PageLinks(env.pages(url));
    if links.Some? {
      NuCrawlOfLinks(url, env, links.value);
      SavedNamesArePdf(links.value, env);
    }
  }

  /** Every path saved by the downloads of `links` has a PDF file name. */
  lemma SavedNamesArePdf(links: seq<PdfLink>, env: NuEnv)
    requires SlashFreeStamps(env.clocks)
    ensures forall p <- SavedPaths(LinkTraces(links, env)) :: PdfFileName(Basename(p))
  {
    var ts := LinkTraces(links, env);
    SavedPathsFromResults(ts);
    forall p <- SavedPaths(ts)
      ensures PdfFileName(Basename(p))
    {
      var i :| 0 <= i < |ts| && ts[i].result == Some(p);
      LinkDownloadName(links[i], env);
    }
  }

  /** A page none of whose link servers ever delivers a complete body yields no metadata. */
  lemma NothingSavedWithoutCompleteBody(url: string, env: NuEnv)
    requires forall u, k: nat :: k < MaxRetries ==> !CompleteDownload(env.net(u, k))
    ensures NuCrawl(url, env) == None
  {
    var links := PageLinks(env.pages(url));
    if links.Some? {
      var ts := LinkTraces(links.value, env);
      forall i | 0 <= i < |ts| ensures ts[i].result.None? {
        var u := links.value[i].downloadUrl;
        NuResultSource(u, NuPaths(u, env.dir, env.clocks), MaxRetries, env.net);
      }
      SavedPathsEmpty(ts);
    }
  }

  /** Once a page's links are known, the crawl's result and file operations are those of their downloads. */
  lemma NuCrawlOfLinks(url: string, env: NuEnv, links: seq<PdfLink>)
    requires PageLinks(env.pages(url)) == Some(links)
    ensures var saved := SavedPaths(LinkTraces(links, env));
      NuCrawl(url, env) == if saved == [] then None else Some(NuRecord(url, Some(links), Some(Basenames(saved))))
    ensures NuCrawlOps(url, env) == TraceOps(LinkTraces(links, env))
  {
  }

  /** The download loop of `crawl_and_download_pdf`: each link in turn, collecting the saved paths. */
  method DownloadAll(links: seq<PdfLink>, env: NuEnv, fs: FileSystem) returns (downloadedFiles: seq<string>)
    modifies fs
    ensures downloadedFiles == SavedPaths(LinkTraces(links, env))
    ensures fs.files == Apply(old(fs.files), TraceOps(LinkTraces(links, env)))
  {
    ghost var ts := LinkTraces(links, env);
    downloadedFiles := [];
    var i := 0;
    while i < |links|
      invariant 0 <= i <= |links|
      invariant downloadedFiles == SavedPaths(ts[..i])
      invariant fs.files == Apply(old(fs.files), TraceOps(ts[..i]))
    {
      var filepath, _, _ := DownloadPdfWithRetries(links[i].downloadUrl, env.dir, MaxRetries, env.net, env.clocks, fs);
      assert ts[i] == LinkDownload(links[i], env);
      TracesStep(ts, i);
      ApplyConcat(old(fs.files), TraceOps(ts[..i]), ts[i].ops);
      if filepath.Some? {
        downloadedFiles := downloadedFiles + [filepath.value];
      } else {
        assert downloadedFiles + [] == downloadedFiles;
      }
      i := i + 1;
    }
    assert ts[..i] == ts;
  }

  /**
   * `crawl_and_download_pdf(url)`: crawl the page, download each PDF link in order, and
   * return the metadata when at least one file was saved.
   */
  method CrawlAndDownloadPdf(url: string, env: NuEnv, fs: FileSystem) returns (metadata: Option<NuRecord>)
    modifies fs
    ensures metadata == NuCrawl(url, env)
    ensures fs.files == Apply(old(fs.files), NuCrawlOps(url, env))
  {
    var markdown := env.pages(url);
    if markdown.None? || markdown.value == [] {
      return None;
    }
    var found := GetDownloadLinks(markdown.value);
    if found.None? {
      return None;
    }
    var links := found.value;
    NuCrawlOfLinks(url, env, links);
    var downloadedFiles := DownloadAll(links, env, fs);
    if downloadedFiles != [] {
      metadata := Some(NuRecord(url, found, Some(Basenames(downloadedFiles))));
    } else {
      metadata := None;
    }
  }

  /** The store key of index `i`: `str(i)`. */
  function Key(i: nat): string {
    NatToString(i)
  }

  /** The repository page of index `i`. */
  function TargetUrl(i: nat): string {
    HandlePrefix + NatToString(i)
  }

  /** The record `main` stores for a processed index: the metadata, or the all-None record. */
  function RecordFor(i: nat, env: NuEnv): (r: NuRecord)
    ensures r.sourceUrl == TargetUrl(i)
    ensures r.downloadUrl.None? <==> r.downloadedFilename.None?
  {
    var m := NuCrawl(TargetUrl(i), env);
    if m.Some? then m.value else NuRecord(TargetUrl(i), None, None)
  }

  /** What processing one index gives: the record to store and the crawl's file operations. */
  datatype Crawl = Crawl(record: NuRecord, ops: seq<FileOp>)

  /** The crawl of every index below `MaxId`. */
  function Crawls(env: NuEnv): (cs: seq<Crawl>)
    ensures |cs| == MaxId
  {
    seq(MaxId, i requires 0 <= i < MaxId => Crawl(RecordFor(i, env), NuCrawlOps(TargetUrl(i), env)))
  }

  /** The store after `main` has handled indices 1 .. hi-1, starting from `results`. */
  function NuRun(results: map<string, NuRecord>, hi: nat, cs: seq<Crawl>): map<string, NuRecord>
    requires hi <= |cs|
    decreases hi
  {
    if hi <= 1 then results
    else
      var r := NuRun(results, hi - 1, cs);
      if Key(hi - 1) in r then r else r[Key(hi - 1) := cs[hi - 1].record]
  }

  /** The file operations of the crawls `main` performs for indices 1 .. hi-1. */
  function NuRunOps(results: map<string, NuRecord>, hi: nat, cs: seq<Crawl>): seq<FileOp>
    requires hi <= |cs|
    decreases hi
  {
    if hi <= 1 then []
    else
      var r := NuRun(results, hi - 1, cs);
      NuRunOps(results, hi - 1, cs) + (if Key(hi - 1) in r then [] else cs[hi - 1].ops)
  }

  /** Every index in 1 .. hi-1 already has a record, so `main` has nothing to do. */
  ghost predicate AllRecorded(results: map<string, NuRecord>, hi: nat) {
    forall i: nat :: 1 <= i < hi ==> Key(i) in results
  }

  /** A key `main` adds is `str(i)` of an index in 1 .. hi-1. */
  ghost predicate IndexKey(k: string, hi: nat) {
    exists i: nat :: 1 <= i < hi && k == Key(i)
  }

  /** Distinct indices have distinct keys. */
  lemma KeysDiffer(i: nat, j: nat)
    requires i != j
    ensures Key(i) != Key(j)
  {
    if Key(i) == Key(j) { NatToStringInjective(i, j); }
  }

  /** Loaded records are kept as they were, and an index at or past `hi` is present only if it was loaded. */
  lemma {:induction false} NuRunKeepsLoaded(results: map<string, NuRecord>, hi: nat, cs: seq<Crawl>)
    requires hi <= |cs|
    ensures var r := NuRun(results, hi, cs);
      && (forall k :: k in results ==> k in r && r[k] == results[k])
      && (forall i: nat :: i >= hi ==> (Key(i) in r <==> Key(i) in results))
    decreases hi
  {
    if hi > 1 {
      NuRunKeepsLoaded(results, hi - 1, cs);
      forall i: nat | i >= hi ensures Key(i) != Key(hi - 1) {
        KeysDiffer(i, hi - 1);
      }
    }
  }

  /** A key the run adds is `str(i)` of an index in 1 .. hi-1. */
  lemma {:induction false} NuRunAddsIndexKeys(results: map<string, NuRecord>, hi: nat, cs: seq<Crawl>)
    requires hi <= |cs|
    ensures var r := NuRun(results, hi, cs);
      forall k :: k in r && k !in results ==> IndexKey(k, hi)
    decreases hi
  {
    if hi > 1 {
      NuRunAddsIndexKeys(results, hi - 1, cs);
      forall k | k in NuRun(results, hi, cs) && k !in results
        ensures IndexKey(k, hi)
      {
        if k == Key(hi - 1) {
          assert 1 <= hi - 1 < hi;
        } else {
          assert IndexKey(k, hi - 1);
        }
      }
    }
  }

  /** Every index in 1 .. hi-1 ends up with a record, the one its crawl gave when it was not loaded. */
  lemma {:induction false} NuRunCovers(results: map<string, NuRecord>, hi: nat, cs: seq<Crawl>)
    requires hi <= |cs|
    ensures var r := NuRun(results, hi, cs);
      && (forall i: nat :: 1 <= i < hi ==> Key(i) in r)
      && (forall i: nat :: 1 <= i < hi && Key(i) !in results ==> r[Key(i)] == cs[i].record)
    decreases hi
  {
    if hi > 1 {
      NuRunCovers(results, hi - 1, cs);
      var r := NuRun(results, hi - 1, cs);
      var u := NuRun(results, hi, cs);
      if Key(hi - 1) !in results {
        NuRunAddsIndexKeys(results, hi - 1, cs);
        assert Key(hi - 1) !in r by {
          if Key(hi - 1) in r {
            var j: nat :| 1 <= j < hi - 1 && Key(hi - 1) == Key(j);
            KeysDiffer(j, hi - 1);
          }
        }
      }
      forall i: nat | 1 <= i < hi - 1
        ensures Key(i) in u
        ensures Key(i) !in results ==> u[Key(i)] == cs[i].record
      {
        KeysDiffer(i, hi - 1);
      }
    }
  }

  /**
   * `main`'s effect on the store: loaded records are kept as they were, every index in
   * 1 .. hi-1 ends up with a record, the one its crawl gave when it was not loaded, an
   * index at or past `hi` is present only if it was loaded, and no other key is added.
   */
  lemma NuRunRecords(results: map<string, NuRecord>, hi: nat, cs: seq<Crawl>)
    requires hi <= |cs|
    ensures var r := NuRun(results, hi, cs);
      && (forall k :: k in results ==> k in r && r[k] == results[k])
      && (forall i: nat :: 1 <= i < hi ==> Key(i) in r)
      && (forall i: nat :: 1 <= i < hi && Key(i) !in results ==> r[Key(i)] == cs[i].record)
      && (forall i: nat :: i >= hi ==> (Key(i) in r <==> Key(i) in results))
      && (forall k :: k in r && k !in results ==> IndexKey(k, hi))
  {
    NuRunKeepsLoaded(results, hi, cs);
    NuRunAddsIndexKeys(results, hi, cs);
    NuRunCovers(results, hi, cs);
  }

  /** The index `main` is about to handle has a record in the running store exactly when one was loaded for it. */
  lemma NuRunKeyAhead(results: map<string, NuRecord>, hi: nat, cs: seq<Crawl>)
    requires hi <= |cs|
    ensures Key(hi) in NuRun(results, hi, cs) <==> Key(hi) in results
  {
    NuRunRecords(results, hi, cs);
  }

  /** When every index already has a record, `main` changes nothing and downloads nothing. */
  lemma {:induction false} NuRunSkipsRecorded(results: map<string, NuRecord>, hi: nat, cs: seq<Crawl>)
    requires hi <= |cs| && AllRecorded(results, hi)
    ensures NuRun(results, hi, cs) == results
    ensures NuRunOps(results, hi, cs) == []
    decreases hi
  {
    if hi > 1 {
      NuRunSkipsRecorded(results, hi - 1, cs);
    }
  }

  /**
   * Resuming: running `main` over a store that already holds the records of indices
   * 1 .. j-1 (a run interrupted after index j-1 and reloaded) gives the same store as one
   * uninterrupted run.
   */
  lemma {:induction false} NuRunResumes(results: map<string, NuRecord>, j: nat, hi: nat, cs: seq<Crawl>)
    requires j <= hi <= |cs|
    ensures NuRun(NuRun(results, j, cs), hi, cs) == NuRun(results, hi, cs)
    decreases hi
  {
    if hi == j || hi <= 1 {
      NuRunRecords(results, j, cs);
      NuRunSkipsRecorded(NuRun(results, j, cs), hi, cs);
    } else {
      NuRunResumes(results, j, hi - 1, cs);
    }
  }

  /** A second run over the store a finished run left behind changes nothing and downloads nothing. */
  lemma NuRerunIsIdle(results: map<string, NuRecord>, cs: seq<Crawl>)
    requires |cs| == MaxId
    ensures var done := NuRun(results, MaxId, cs);
      NuRun(done, MaxId, cs) == done && NuRunOps(done, MaxId, cs) == []
  {
    NuRunRecords(results, MaxId, cs);
    NuRunSkipsRecorded(NuRun(results, MaxId, cs), MaxId, cs);
  }

  /** The metadata store: the records in memory and the JSON file on disk. */
  class NuStore {
    var results: map<string, NuRecord>
    var disk: Option<map<string, NuRecord>>

    /** `load_existing_results()`: the file's records, or an empty store when it is missing. */
    constructor Load(file: Option<map<string, NuRecord>>)
      ensures results == file.GetOr(map[]) && disk == file
    {
      results := file.GetOr(map[]);
      disk := file;
    }

    /** `results[index] = metadata` */
    method Record(key: string, record: NuRecord)
      modifies this
      ensures results == old(results)[key := record] && disk == old(disk)
    {
      results := results[key := record];
    }

    /** `save_results(results)`: the file is rewritten with the whole store. */
    method Save()
      modifies this
      ensures disk == Some(results) && results == old(results)
    {
      disk := Some(results);
    }
  }

  /** What the crawl of index `i` records and does. */
  lemma CrawlsAt(env: NuEnv, i: nat)
    requires i < MaxId
    ensures Crawls(env)[i] == Crawl(RecordFor(i, env), NuCrawlOps(TargetUrl(i), env))
  {
  }

  /** Each index below `MaxId` gets the crawl `cs` holds at its position. */
  ghost predicate CrawledAs(env: NuEnv, cs: seq<Crawl>) {
    && |cs| == MaxId
    && forall i {:trigger RecordFor(i, env)} :: 0 <= i < MaxId ==>
         cs[i] == Crawl(RecordFor(i, env), NuCrawlOps(TargetUrl(i), env))
  }

  /** The crawls of every index are what each index gets. */
  lemma CrawlsCrawledAs(env: NuEnv)
    ensures CrawledAs(env, Crawls(env))
  {
    forall i | 0 <= i < MaxId ensures Crawls(env)[i] == Crawl(RecordFor(i, env), NuCrawlOps(TargetUrl(i), env)) {
      CrawlsAt(env, i);
    }
  }

  /**
   * One round of `main`'s loop: an index without a record is crawled, its metadata or
   * the all-None record is stored and the store is saved; an index with a record is skipped.
   */
  method HandleIndex(store: NuStore, env: NuEnv, fs: FileSystem, index: nat, ghost cs: seq<Crawl>)
    requires index < MaxId && CrawledAs(env, cs)
    modifies store, fs
    ensures Key(index) in old(store.results) ==>
      store.results == old(store.results) && store.disk == old(store.disk) && fs.files == old(fs.files)
    ensures Key(index) !in old(store.results) ==>
      && store.results == old(store.results)[Key(index) := cs[index].record]
      && store.disk == Some(store.results)
      && fs.files == Apply(old(fs.files), cs[index].ops)
  {
    assert cs[index] == Crawl(RecordFor(index, env), NuCrawlOps(TargetUrl(index), env));
    var targetUrl := HandlePrefix + NatToString(index);
    var key := NatToString(index);
    if key !in store.results {
      var metadata := CrawlAndDownloadPdf(targetUrl, env, fs);
      if metadata.Some? {
        store.Record(key, metadata.value);
      } else {
        store.Record(key, NuRecord(targetUrl, None, None));
      }
      store.Save();
    }
  }

  /** One turn of `main`'s loop: the store, the disk and the files advance from indices below `index` to one more. */
  method HandleNextIndex(ghost loaded: map<string, NuRecord>, index: nat, store: NuStore, env: NuEnv, fs: FileSystem,
                         ghost cs: seq<Crawl>, ghost disk0: Option<map<string, NuRecord>>, ghost files0: map<string, seq<byte>>)
    requires 1 <= index < MaxId && CrawledAs(env, cs)
    requires store.results == NuRun(loaded, index, cs)
    requires fs.files == Apply(files0, NuRunOps(loaded, index, cs))
    requires store.disk == if AllRecorded(loaded, index) then disk0 else Some(store.results)
    modifies store, fs
    ensures store.results == NuRun(loaded, index + 1, cs)
    ensures fs.files == Apply(files0, NuRunOps(loaded, index + 1, cs))
    ensures store.disk == if AllRecorded(loaded, index + 1) then disk0 else Some(store.results)
  {
    NuRunNext(loaded, index, cs);
    HandleIndex(store, env, fs, index, cs);
    if Key(index) !in loaded {
      ApplyConcat(files0, NuRunOps(loaded, index, cs), cs[index].ops);
    }
  }

  /** How the run, its file operations and `AllRecorded` advance by one index. */
  lemma NuRunNext(loaded: map<string, NuRecord>, index: nat, cs: seq<Crawl>)
    requires 1 <= index < |cs|
    ensures Key(index) in NuRun(loaded, index, cs) <==> Key(index) in loaded
    ensures Key(index) in loaded ==>
      && NuRun(loaded, index + 1, cs) == NuRun(loaded, index, cs)
      && NuRunOps(loaded, index + 1, cs) == NuRunOps(loaded, index, cs)
    ensures Key(index) !in loaded ==>
      && NuRun(loaded, index + 1, cs) == NuRun(loaded, index, cs)[Key(index) := cs[index].record]
      && NuRunOps(loaded, index + 1, cs) == NuRunOps(loaded, index, cs) + cs[index].ops
    ensures AllRecorded(loaded, index + 1) <==> AllRecorded(loaded, index) && Key(index) in loaded
  {
    NuRunKeyAhead(loaded, index, cs);
    assert NuRunOps(loaded, index, cs) + [] == NuRunOps(loaded, index, cs);
    if AllRecorded(loaded, index) && Key(index) in loaded {
      forall i: nat | 1 <= i < index + 1 ensures Key(i) in loaded {
        if i < index { assert Key(i) in loaded; }
      }
    }
  }

  /** `main`'s loop over the indices 1 .. 999, index `i` getting crawl `cs[i]`. */
  method RunIndices(store: NuStore, env: NuEnv, fs: FileSystem, ghost cs: seq<Crawl>)
    requires CrawledAs(env, cs)
    modifies store, fs
    ensures store.results == NuRun(old(store.results), MaxId, cs)
    ensures fs.files == Apply(old(fs.files), NuRunOps(old(store.results), MaxId, cs))
    ensures store.disk == if AllRecorded(old(store.results), MaxId) then old(store.disk) else Some(store.results)
  {
    ghost var loaded := store.results;
    var index := 1;
    while index < MaxId
      invariant 1 <= index <= MaxId
      invariant store.results == NuRun(loaded, index, cs)
      invariant fs.files == Apply(old(fs.files), NuRunOps(loaded, index, cs))
      invariant store.disk == if AllRecorded(loaded, index) then old(store.disk) else Some(store.results)
    {
      HandleNextIndex(loaded, index, store, env, fs, cs, old(store.disk), old(fs.files));
      index := index + 1;
    }
  }

  /**
   * `main()`: for each index 1 .. 999 not yet in the store, crawl its page, record the
   * metadata or the all-None record, and save the store. The store ends as `NuRun`
   * says; the file on disk holds the whole store as soon as any index was processed.
   */
  method RunNu(store: NuStore, env: NuEnv, fs: FileSystem)
    modifies store, fs
    ensures store.results == NuRun(old(store.results), MaxId, Crawls(env))
    ensures fs.files == Apply(old(fs.files), NuRunOps(old(store.results), MaxId, Crawls(env)))
    ensures AllRecorded(old(store.results), MaxId) ==> store.disk == old(store.disk)
    ensures !AllRecorded(old(store.results), MaxId) ==> store.disk == Some(store.results)
  {
    CrawlsCrawledAs(env);
    RunIndices(store, env, fs, Crawls(env));
  }
}
