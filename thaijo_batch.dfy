/**
 * `fetch_and_download_pdfs_from_urls` (crawl/thaijo/fetch_pdf_urls.py): for each article
 * URL not yet resolved, find its PDF link (through the Drive rewrite or the page fetch),
 * download it, record `{download_link, filename}` under the URL, and save the store.
 */
module ThaijoBatch {
  import opened Wrappers
  import opened Text
  import opened Files
  import opened Http
  import ThaijoFetch
  import ThaijoDownload
  import GoogleDrive

  /** `max_retries=5` at every call site of the runner. */
  const MaxRetries := 5

  /** One entry of `pdf_download_links.json`. */
  datatype TjRecord = TjRecord(downloadLink: Option<string>, filename: Option<string>)

  /** Everything outside the program the runner sees: the browser, the network, the clock and `SAVE_DIR`. */
  datatype TjEnv = TjEnv(browser: ThaijoFetch.Browser, net: Net, clocks: Clocks, dir: string)

  /** `"drive.google.com" in url` */
  predicate IsDriveUrl(url: string) {
    Contains(url, "drive.google.com")
  }

  /** Python truthiness of an optional string: present and non-empty. */
  predicate Truthy(o: Option<string>) {
    o.Some? && o.value != []
  }

  /** `pdf_download_link`: from the Drive rewrite or from the page fetch. */
  function FindLink(url: string, env: TjEnv): Option<string> {
    if IsDriveUrl(url) then GoogleDrive.GetDownloadUrlFromGoogleDrive(url)
    else ThaijoFetch.FetchDownloadUrl(url, MaxRetries, env.browser).result
  }

  /** The download of that link, when it is truthy; no download at all otherwise. */
  function DownloadOf(url: string, env: TjEnv): Trace {
    var link := FindLink(url, env);
    if !Truthy(link) then GiveUp
    else if IsDriveUrl(url) then GoogleDrive.DriveDownload(link.value, env.dir, MaxRetries, env.net, env.clocks)
    else ThaijoDownload.TjDownload(link.value, env.dir, MaxRetries, env.net, env.clocks)
  }

  /** `{"download_link": pdf_download_link, "filename": basename(saved_filepath) if saved_filepath else None}` */
  function RecordOf(url: string, env: TjEnv): (r: TjRecord)
    ensures r.filename.Some? ==> '/' !in r.filename.value
  {
    var saved := DownloadOf(url, env).result;
    TjRecord(FindLink(url, env), if Truthy(saved) then Some(Basename(saved.value)) else None)
  }

  /** The skip rule: the URL has a record whose `download_link` is not None. */
  predicate Skips(results: map<string, TjRecord>, url: string) {
    url in results && results[url].downloadLink.Some?
  }

  /** The store after the first `n` URLs of the list, when processing a URL records `record(url)`. */
  function RunStore(loaded: map<string, TjRecord>, urls: seq<string>, record: string -> TjRecord, n: nat): map<string, TjRecord>
    requires n <= |urls|
  {
    if n == 0 then loaded
    else
      var prev := RunStore(loaded, urls, record, n - 1);
      var url := urls[n - 1];
      if Skips(prev, url) then prev else prev[url := record(url)]
  }

  /** What processing each URL records. */
  function Records(env: TjEnv): string -> TjRecord {
    url => RecordOf(url, env)
  }

  /** What processing a URL gives: the record written under it and the file operations of its download. */
  datatype Processing = Processing(record: TjRecord, ops: seq<FileOp>)

  function ProcessingOf(url: string, env: TjEnv): Processing {
    Processing(RecordOf(url, env), DownloadOf(url, env).ops)
  }

  /** The processing of each URL of the list, in list order. */
  function Processings(urls: seq<string>, env: TjEnv): (ps: seq<Processing>)
    ensures |ps| == |urls|
    decreases |urls|
  {
    if urls == [] then [] else Processings(urls[..|urls| - 1], env) + [ProcessingOf(urls[|urls| - 1], env)]
  }

  /** Entry `i` of that sequence is the processing of URL `i`. */
  lemma {:induction false} ProcessingsAt(urls: seq<string>, env: TjEnv, i: nat)
    requires i < |urls|
    ensures Processings(urls, env)[i] == ProcessingOf(urls[i], env)
    decreases |urls|
  {
    if i < |urls| - 1 {
      var init := urls[..|urls| - 1];
      ProcessingsAt(init, env, i);
    }
  }

  /** The store after the first `n` URLs of the list, when processing URL `i` gives `ps[i]`. */
  function StoreAfter(loaded: map<string, TjRecord>, urls: seq<string>, ps: seq<Processing>, n: nat): map<string, TjRecord>
    requires n <= |urls| == |ps|
  {
    if n == 0 then loaded
    else
      var prev := StoreAfter(loaded, urls, ps, n - 1);
      var url := urls[n - 1];
      if Skips(prev, url) then prev else prev[url := ps[n - 1].record]
  }

  /** The file operations of the first `n` URLs, when processing URL `i` gives `ps[i]`. */
  function OpsAfter(loaded: map<string, TjRecord>, urls: seq<string>, ps: seq<Processing>, n: nat): seq<FileOp>
    requires n <= |urls| == |ps|
  {
    if n == 0 then []
    else
      var url := urls[n - 1];
      OpsAfter(loaded, urls, ps, n - 1) + (if Skips(StoreAfter(loaded, urls, ps, n - 1), url) then [] else ps[n - 1].ops)
  }

  /** Every URL among the first `n` was skipped, when processing URL `i` gives `ps[i]`. */
  predicate SkippedAll(loaded: map<string, TjRecord>, urls: seq<string>, ps: seq<Processing>, n: nat)
    requires n <= |urls| == |ps|
  {
    n == 0 || (SkippedAll(loaded, urls, ps, n - 1) && Skips(StoreAfter(loaded, urls, ps, n - 1), urls[n - 1]))
  }

  /** The store after the first `n` URLs of the list. */
  function TjRun(loaded: map<string, TjRecord>, urls: seq<string>, env: TjEnv, n: nat): map<string, TjRecord>
    requires n <= |urls|
  {
    StoreAfter(loaded, urls, Processings(urls, env), n)
  }

  /** Processing that records `record(url)` for every URL of the list builds the same store as the recursion over `record`. */
  lemma {:induction false} StoreAfterIsRunStore(loaded: map<string, TjRecord>, urls: seq<string>, ps: seq<Processing>,
                                                record: string -> TjRecord, n: nat)
    requires n <= |urls| == |ps|
    requires forall i :: 0 <= i < n ==> ps[i].record == record(urls[i])
    ensures StoreAfter(loaded, urls, ps, n) == RunStore(loaded, urls, record, n)
  {
    if n > 0 {
      StoreAfterIsRunStore(loaded, urls, ps, record, n - 1);
    }
  }

  /** The run is the store recursion with the records processing writes. */
  lemma TjRunIsRunStore(loaded: map<string, TjRecord>, urls: seq<string>, env: TjEnv, n: nat)
    requires n <= |urls|
    ensures TjRun(loaded, urls, env, n) == RunStore(loaded, urls, Records(env), n)
  {
    var ps := Processings(urls, env);
    forall i | 0 <= i < n ensures ps[i].record == Records(env)(urls[i]) {
      ProcessingsAt(urls, env, i);
    }
    StoreAfterIsRunStore(loaded, urls, ps, Records(env), n);
  }

  /** The file operations of the first `n` URLs. */
  function TjRunOps(loaded: map<string, TjRecord>, urls: seq<string>, env: TjEnv, n: nat): seq<FileOp>
    requires n <= |urls|
  {
    OpsAfter(loaded, urls, Processings(urls, env), n)
  }

  /** Every URL among the first `n` was skipped, so nothing was saved. */
  predicate AllSkipped(loaded: map<string, TjRecord>, urls: seq<string>, env: TjEnv, n: nat)
    requires n <= |urls|
  {
    SkippedAll(loaded, urls, Processings(urls, env), n)
  }

  /**
   * The store after the first `n` URLs has the loaded keys plus those URLs, and no other:
   * a key is never removed. A URL whose `download_link` was found keeps its record
   * unchanged; every other key outside the list keeps its record too.
   */
  lemma {:induction false} RunStoreKeys(loaded: map<string, TjRecord>, urls: seq<string>, record: string -> TjRecord, n: nat)
    requires n <= |urls|
    ensures var r := RunStore(loaded, urls, record, n);
      && r.Keys == loaded.Keys + (set i | 0 <= i < n :: urls[i])
      && (forall k :: Skips(loaded, k) ==> k in r && r[k] == loaded[k])
      && (forall k :: k in loaded && (forall i :: 0 <= i < n ==> urls[i] != k) ==> r[k] == loaded[k])
  {
    if n > 0 {
      RunStoreKeys(loaded, urls, record, n - 1);
      assert (set i | 0 <= i < n :: urls[i]) == (set i | 0 <= i < n - 1 :: urls[i]) + {urls[n - 1]};
    }
  }

  /**
   * The record of each URL of the list once the first `n` are done: the loaded record if it
   * already had a `download_link`, else the record of processing that URL. With the
   * environment fixed, processing a URL again writes the same record.
   */
  lemma {:induction false} RunStoreEntry(loaded: map<string, TjRecord>, urls: seq<string>, record: string -> TjRecord, n: nat, j: nat)
    requires j < n <= |urls|
    ensures var r := RunStore(loaded, urls, record, n);
      urls[j] in r && r[urls[j]] == if Skips(loaded, urls[j]) then loaded[urls[j]] else record(urls[j])
  {
    var u := urls[j];
    RunStoreKeys(loaded, urls, record, n);
    var prev := RunStore(loaded, urls, record, n - 1);
    if j < n - 1 {
      RunStoreEntry(loaded, urls, record, n - 1, j);
    } else {
      RunStoreKeys(loaded, urls, record, n - 1);
      if !Skips(loaded, u) && Skips(prev, u) {
        RunStoreFoundLink(loaded, urls, record, n - 1, u);
      }
    }
  }

  /** A `download_link` the run gives a URL that did not have one came from processing that URL. */
  lemma {:induction false} RunStoreFoundLink(loaded: map<string, TjRecord>, urls: seq<string>, record: string -> TjRecord, n: nat, u: string)
    requires n <= |urls| && !Skips(loaded, u) && Skips(RunStore(loaded, urls, record, n), u)
    ensures RunStore(loaded, urls, record, n)[u] == record(u)
  {
    if n > 0 {
      var prev := RunStore(loaded, urls, record, n - 1);
      if urls[n - 1] != u || Skips(prev, u) {
        RunStoreFoundLink(loaded, urls, record, n - 1, u);
      }
    }
  }

  /** Running the whole list again over the store it produced leaves the store as it is. */
  lemma RunStoreRerun(loaded: map<string, TjRecord>, urls: seq<string>, record: string -> TjRecord)
    ensures var once := RunStore(loaded, urls, record, |urls|);
      RunStore(once, urls, record, |urls|) == once
  {
    var once := RunStore(loaded, urls, record, |urls|);
    var twice := RunStore(once, urls, record, |urls|);
    RunStoreKeys(loaded, urls, record, |urls|);
    RunStoreKeys(once, urls, record, |urls|);
    assert twice.Keys == once.Keys;
    forall k | k in once ensures twice[k] == once[k] {
      if j :| 0 <= j < |urls| && urls[j] == k {
        RunStoreEntry(loaded, urls, record, |urls|, j);
        RunStoreEntry(once, urls, record, |urls|, j);
      }
    }
  }

  /** Each URL of the list ends with its loaded record if that had a `download_link`, else with the record of processing it. */
  lemma TjRunEntry(loaded: map<string, TjRecord>, urls: seq<string>, env: TjEnv, j: nat)
    requires j < |urls|
    ensures var r := TjRun(loaded, urls, env, |urls|);
      urls[j] in r && r[urls[j]] == if Skips(loaded, urls[j]) then loaded[urls[j]] else RecordOf(urls[j], env)
  {
    TjRunIsRunStore(loaded, urls, env, |urls|);
    RunStoreEntry(loaded, urls, Records(env), |urls|, j);
  }

  /**
   * After the run the store has the loaded keys plus the listed URLs, and no other: no key
   * is removed, a record that had a `download_link` is kept, and so is every unlisted one.
   */
  lemma TjRunKeys(loaded: map<string, TjRecord>, urls: seq<string>, env: TjEnv)
    ensures var r := TjRun(loaded, urls, env, |urls|);
      && r.Keys == loaded.Keys + (set i | 0 <= i < |urls| :: urls[i])
      && (forall k :: Skips(loaded, k) ==> k in r && r[k] == loaded[k])
      && (forall k :: k in loaded && (forall i :: 0 <= i < |urls| ==> urls[i] != k) ==> r[k] == loaded[k])
  {
    TjRunIsRunStore(loaded, urls, env, |urls|);
    RunStoreKeys(loaded, urls, Records(env), |urls|);
  }

  /** A `download_link` the run gives a URL that had none came from processing that URL. */
  lemma TjRunFoundLink(loaded: map<string, TjRecord>, urls: seq<string>, env: TjEnv, u: string)
    requires !Skips(loaded, u) && Skips(TjRun(loaded, urls, env, |urls|), u)
    ensures TjRun(loaded, urls, env, |urls|)[u] == RecordOf(u, env)
  {
    TjRunIsRunStore(loaded, urls, env, |urls|);
    RunStoreFoundLink(loaded, urls, Records(env), |urls|, u);
  }

  /** Running `fetch_and_download_pdfs_from_urls` again over the store it produced leaves the store as it is. */
  lemma TjRerunKeepsStore(loaded: map<string, TjRecord>, urls: seq<string>, env: TjEnv)
    ensures var once := TjRun(loaded, urls, env, |urls|);
      TjRun(once, urls, env, |urls|) == once
  {
    TjRunIsRunStore(loaded, urls, env, |urls|);
    TjRunIsRunStore(TjRun(loaded, urls, env, |urls|), urls, env, |urls|);
    RunStoreRerun(loaded, urls, Records(env));
  }

  /**
   * A recorded filename means the link was truthy and a download of it returned a path;
   * the name is that path's basename, the path attempt k of the chosen downloader saves to.
   */
  lemma RecordFilenameSource(url: string, env: TjEnv)
    ensures var rec := RecordOf(url, env);
      var link := rec.downloadLink;
      rec.filename.Some? ==>
        && Truthy(link)
        && (!IsDriveUrl(url) ==>
              exists k: nat :: k < MaxRetries && rec.filename.value == Basename(ThaijoDownload.TjPaths(link.value, env.dir, env.clocks)(k)))
        && (IsDriveUrl(url) ==>
              exists k: nat :: k < MaxRetries && rec.filename.value == Basename(GoogleDrive.DrivePaths(link.value, env.dir, env.clocks)(k)))
  {
    var link := FindLink(url, env);
    if Truthy(link) {
      if IsDriveUrl(url) {
        GoogleDrive.DriveLoopCeiling(link.value, GoogleDrive.DrivePaths(link.value, env.dir, env.clocks), MaxRetries, env.net, 0);
      } else {
        ThaijoDownload.TjResultSource(link.value, ThaijoDownload.TjPaths(link.value, env.dir, env.clocks), MaxRetries, env.net);
      }
    }
  }

  /**
   * A Drive URL's recorded file is named `<id>_<stamp>.pdf`, `id` being the file id of the
   * share link itself, when the clock's stamps hold no `/`.
   */
  lemma DriveRecordNamedAfterId(url: string, env: TjEnv)
    requires forall u, k :: '/' !in env.clocks(u, k).stamp
    requires IsDriveUrl(url)
    ensures var rec := RecordOf(url, env);
      rec.filename.Some? ==>
        exists k: nat :: k < MaxRetries && rec.filename.value == GoogleDrive.DriveFileId(url).value + "_" + env.clocks(rec.downloadLink.value, k).stamp + ".pdf"
  {
    var rec := RecordOf(url, env);
    RecordFilenameSource(url, env);
    if rec.filename.Some? {
      var link := rec.downloadLink.value;
      var k: nat :| k < MaxRetries && rec.filename.value == Basename(GoogleDrive.DrivePaths(link, env.dir, env.clocks)(k));
      GoogleDrive.DrivePathNamedAfterId(url, env.dir, env.clocks, k);
    }
  }

  /** The store of `pdf_download_links.json`: the records in memory and the file on disk. */
  class TjStore {
    var results: map<string, TjRecord>
    var disk: Option<map<string, TjRecord>>

    /** `load_existing_results()`: the file's records, or an empty store when it is missing. */
    constructor Load(file: Option<map<string, TjRecord>>)
      ensures results == file.GetOr(map[]) && disk == file
    {
      results := file.GetOr(map[]);
      disk := file;
    }

    /** `results[url] = {...}` */
    method Record(url: string, record: TjRecord)
      modifies this
      ensures results == old(results)[url := record] && disk == old(disk)
    {
      results := results[url := record];
    }

    /** `save_results_to_file(results)`: the file is rewritten with the whole store. */
    method Save()
      modifies this
      ensures disk == Some(results) && results == old(results)
    {
      disk := Some(results);
    }
  }

  /** The body of the loop for a URL that is not skipped: find the link, download it, build the record. */
  method ProcessUrl(url: string, env: TjEnv, fs: FileSystem) returns (record: TjRecord)
    modifies fs
    ensures record == RecordOf(url, env)
    ensures fs.files == Apply(old(fs.files), DownloadOf(url, env).ops)
  {
    var link: Option<string>;
    var saved: Option<string> := None;
    if Contains(url, "drive.google.com") {
      link := GoogleDrive.GetDownloadUrlFromGoogleDrive(url);
      if link.Some? && link.value != [] {
        var path, requested, sleeps := GoogleDrive.DownloadPdfFromGoogleDrive(link.value, env.dir, MaxRetries, env.net, env.clocks, fs);
        saved := path;
      }
    } else {
      var found, visited, waits := ThaijoFetch.GetDownloadUrlFromFetch(url, MaxRetries, env.browser);
      link := found;
      if link.Some? && link.value != [] {
        var path, requested, sleeps := ThaijoDownload.DownloadPdfWithRetries(link.value, env.dir, MaxRetries, env.net, env.clocks, fs);
        saved := path;
      }
    }
    record := TjRecord(link, if saved.Some? && saved.value != [] then Some(Basename(saved.value)) else None);
  }

  /** What handling one URL does to the store and to the disk. */
  function ItemOps(results: map<string, TjRecord>, url: string, env: TjEnv): seq<FileOp> {
    if Skips(results, url) then [] else DownloadOf(url, env).ops
  }

  /** One more URL of the list: the store, the file operations and the skip history advance by that URL. */
  lemma TjRunStep(loaded: map<string, TjRecord>, urls: seq<string>, env: TjEnv, n: nat)
    requires n < |urls|
    ensures var prev := TjRun(loaded, urls, env, n);
      && TjRun(loaded, urls, env, n + 1) == (if Skips(prev, urls[n]) then prev else prev[urls[n] := RecordOf(urls[n], env)])
      && TjRunOps(loaded, urls, env, n + 1) == TjRunOps(loaded, urls, env, n) + ItemOps(prev, urls[n], env)
      && AllSkipped(loaded, urls, env, n + 1) == (AllSkipped(loaded, urls, env, n) && Skips(prev, urls[n]))
  {
    ProcessingsAt(urls, env, n);
  }

  /** The loop body for one URL: skip it, or process it, record it and save the store. */
  method HandleUrl(url: string, store: TjStore, env: TjEnv, fs: FileSystem)
    modifies store, fs
    ensures var before := old(store.results);
      && store.results == (if Skips(before, url) then before else before[url := RecordOf(url, env)])
      && fs.files == Apply(old(fs.files), ItemOps(before, url, env))
      && store.disk == (if Skips(before, url) then old(store.disk) else Some(store.results))
  {
    if url in store.results && store.results[url].downloadLink.Some? {
      assert old(fs.files) == Apply(old(fs.files), []);
      return;
    }
    var record := ProcessUrl(url, env, fs);
    store.Record(url, record);
    store.Save();
  }

  /** Each URL of the list gets the processing `ps` holds at its position. */
  ghost predicate ProcessedAs(urls: seq<string>, env: TjEnv, ps: seq<Processing>) {
    && |ps| == |urls|
    && forall i {:trigger ProcessingOf(urls[i], env)} :: 0 <= i < |urls| ==> ps[i] == ProcessingOf(urls[i], env)
  }

  /** The sequence of processings is what each URL of the list gets. */
  lemma ProcessingsProcessedAs(urls: seq<string>, env: TjEnv)
    ensures ProcessedAs(urls, env, Processings(urls, env))
  {
    forall i | 0 <= i < |urls| ensures Processings(urls, env)[i] == ProcessingOf(urls[i], env) {
      ProcessingsAt(urls, env, i);
    }
  }

  /** One turn of the runner's loop: the store, the disk and the files advance from the first `index` URLs to one more. */
  method HandleNext(ghost loaded: map<string, TjRecord>, urls: seq<string>, index: nat, store: TjStore, env: TjEnv, fs: FileSystem,
                    ghost ps: seq<Processing>, ghost disk0: Option<map<string, TjRecord>>, ghost files0: map<string, seq<byte>>)
    requires index < |urls| && ProcessedAs(urls, env, ps)
    requires store.results == StoreAfter(loaded, urls, ps, index)
    requires fs.files == Apply(files0, OpsAfter(loaded, urls, ps, index))
    requires store.disk == if SkippedAll(loaded, urls, ps, index) then disk0 else Some(store.results)
    modifies store, fs
    ensures store.results == StoreAfter(loaded, urls, ps, index + 1)
    ensures fs.files == Apply(files0, OpsAfter(loaded, urls, ps, index + 1))
    ensures store.disk == if SkippedAll(loaded, urls, ps, index + 1) then disk0 else Some(store.results)
  {
    assert ps[index] == ProcessingOf(urls[index], env);
    ghost var prev := store.results;
    ghost var done := OpsAfter(loaded, urls, ps, index);
    HandleUrl(urls[index], store, env, fs);
    ApplyConcat(files0, done, ItemOps(prev, urls[index], env));
  }

  /** The runner's loop over the URLs, URL `i` getting processing `ps[i]`. */
  method RunList(urls: seq<string>, store: TjStore, env: TjEnv, fs: FileSystem, ghost ps: seq<Processing>)
    requires ProcessedAs(urls, env, ps)
    modifies store, fs
    ensures store.results == StoreAfter(old(store.results), urls, ps, |urls|)
    ensures fs.files == Apply(old(fs.files), OpsAfter(old(store.results), urls, ps, |urls|))
    ensures store.disk == if SkippedAll(old(store.results), urls, ps, |urls|) then old(store.disk) else Some(store.results)
  {
    ghost var loaded := store.results;
    var index := 0;
    while index < |urls|
      invariant index <= |urls|
      invariant store.results == StoreAfter(loaded, urls, ps, index)
      invariant fs.files == Apply(old(fs.files), OpsAfter(loaded, urls, ps, index))
      invariant store.disk == if SkippedAll(loaded, urls, ps, index) then old(store.disk) else Some(store.results)
    {
      HandleNext(loaded, urls, index, store, env, fs, ps, old(store.disk), old(fs.files));
      index := index + 1;
    }
  }

  /**
   * `fetch_and_download_pdfs_from_urls(url_list)`: the store ends as `TjRun` says, the
   * disk holds the store as soon as any URL was processed, and the results are returned.
   */
  method FetchAndDownloadPdfsFromUrls(urls: seq<string>, store: TjStore, env: TjEnv, fs: FileSystem)
    returns (results: map<string, TjRecord>)
    modifies store, fs
    ensures results == store.results == TjRun(old(store.results), urls, env, |urls|)
    ensures fs.files == Apply(old(fs.files), TjRunOps(old(store.results), urls, env, |urls|))
    ensures AllSkipped(old(store.results), urls, env, |urls|) ==> store.disk == old(store.disk)
    ensures !AllSkipped(old(store.results), urls, env, |urls|) ==> store.disk == Some(store.results)
  {
    ProcessingsProcessedAs(urls, env);
    RunList(urls, store, env, fs, Processings(urls, env));
    results := store.results;
  }
}
