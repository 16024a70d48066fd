/**
 * The retrying PDF downloader of the NU crawler (`download_pdf_with_retries` in
 * crawl/nu/crawl_main.py): one streaming GET per attempt, up to `max_retries` attempts,
 * 403/404 terminal, 429 / 5xx / other statuses / transport errors retried after an
 * exponential back-off, and an empty download deleted and retried without sleeping.
 */
module NuFetch {
  import opened Wrappers
  import opened Text
  import opened Files
  import opened Http

  /** The stem of the file name is cut to this many characters. */
  const MaxNameLength: nat := 100

  /** `ext.lower() == ".pdf"` (only ASCII letters lower-case to `p`, `d` or `f`). */
  predicate IsPdfExt(ext: string) {
    |ext| == 4 && ext[0] == '.' && LowerAscii(ext[1]) == 'p' && LowerAscii(ext[2]) == 'd' && LowerAscii(ext[3]) == 'f'
  }

  /** The stem of the saved file's name: the base name's root, cut to 100 characters. */
  function NuStem(url: string, clock: Clock): (r: string)
    ensures |r| <= MaxNameLength && StartsWith(FileBase(url, clock), r)
  {
    var name := SplitExt(FileBase(url, clock)).0;
    var cut := if |name| <= MaxNameLength then |name| else MaxNameLength;
    name[..cut]
  }

  /** The extension of the saved file's name: the base name's, unless it is not `.pdf` in some case. */
  function NuExt(url: string, clock: Clock): (r: string)
    ensures IsPdfExt(r)
  {
    var ext := SplitExt(FileBase(url, clock)).1;
    if ext == [] || !IsPdfExt(ext) then ".pdf" else ext
  }

  /** The saved file's name: `<name[:100]>_<stamp><ext>`, the extension forced to a PDF one. */
  function NuFilename(url: string, clock: Clock): string {
    NuStem(url, clock) + "_" + clock.stamp + NuExt(url, clock)
  }

  /**
   * The file name is a prefix of at most 100 characters of the base name, then `_`, the
   * time stamp, and an extension that reads `.pdf` in some letter case.
   */
  lemma NuFilenameShape(url: string, clock: Clock)
    ensures var f := NuFilename(url, clock);
      var stem := |f| - |clock.stamp| - 5;
      && 0 <= stem <= MaxNameLength
      && StartsWith(FileBase(url, clock), f[..stem])
      && f[stem..|f| - 4] == "_" + clock.stamp
      && IsPdfExt(f[|f| - 4..])
  {
    var stem := NuStem(url, clock);
    var ext := NuExt(url, clock);
    FourPieces(stem, "_", clock.stamp, ext);
    assert NuFilename(url, clock) == stem + "_" + clock.stamp + ext;
  }

  /**
   * A base name that already ends in a PDF extension (in any letter case) after a stem of
   * at most 100 characters is saved as `<stem>_<stamp><its own extension>`.
   */
  lemma NuFilenameKeepsPdfName(url: string, clock: Clock)
    requires var b := FileBase(url, clock);
      |b| >= 4 && IsPdfExt(b[|b| - 4..]) && !AllDots(b[..|b| - 4]) && |b| - 4 <= MaxNameLength
    ensures var b := FileBase(url, clock);
      NuFilename(url, clock) == b[..|b| - 4] + "_" + clock.stamp + b[|b| - 4..]
  {
    var b := FileBase(url, clock);
    SplitPdfName(b);
    assert NuStem(url, clock) == b[..|b| - 4] && NuExt(url, clock) == b[|b| - 4..];
  }

  /** A name ending in a PDF extension after a root that is not all dots splits before that extension. */
  lemma SplitPdfName(b: string)
    requires '/' !in b && |b| >= 4 && IsPdfExt(b[|b| - 4..]) && !AllDots(b[..|b| - 4])
    ensures SplitExt(b) == (b[..|b| - 4], b[|b| - 4..])
  {
    assert '.' in b by { assert b[|b| - 4] == '.'; }
    var before := BeforeLast(b, '.');
    BeforeLastShape(b, '.');
    var n := |before|;
    assert n < |b| && b[n] == '.' && '.' !in b[n + 1..];
    assert forall i :: |b| - 3 <= i < |b| ==> b[i] != '.' by {
      assert LowerAscii('.') == '.';
    }
    assert n == |b| - 4;
    assert before == b[..|b| - 4];
  }

  /** The path a 200 answer is saved to, given the clock reading of its attempt. */
  function NuPath(url: string, dir: string, clock: Clock): string {
    Join(dir, NuFilename(url, clock))
  }

  /** One attempt of the loop, given its outcome and the path a 200 answer is saved to. */
  function NuAttempt(url: string, path: string, a: nat, o: Outcome): (sd: (Step, Decision))
    ensures sd.1.Return? ==> sd.0.sleep.None?
  {
    match o
    case Answer(r) =>
      if r.status == 200 && r.lengthMalformed then
        // `int(content-length)` raises before the file is opened: the handler backs off
        (Step([url], Some(Sleep(a, 1, 3)), []), Continue)
      else if r.status == 200 then
        var content := Concat(r.body);
        if r.interrupted then
          // the stream raised: the partial file stays, the exception handler backs off
          (Step([url], Some(Sleep(a, 1, 3)), [Write(path, content)]), Continue)
        else if |content| > 0 then
          (Step([url], None, [Write(path, content)]), Return(Some(path)))
        else
          // an empty file is removed and the next attempt starts at once
          (Step([url], None, [Write(path, []), Delete(path)]), Continue)
      else if r.status == 429 then
        (Step([url], Some(Sleep(a, 1, 5)), []), Continue)
      else if r.status == 403 || r.status == 404 then
        (Step([url], None, []), Return(None))
      else
        // 5xx and every other status
        (Step([url], Some(Sleep(a, 1, 3)), []), Continue)
    case Timeout =>
      (Step([url], Some(Sleep(a, 1, 3)), []), Continue)
    case ConnectionError =>
      (Step([url], Some(Sleep(a, 1, 3)), []), Continue)
  }

  /** The loop from attempt `a` on; `paths(k)` is where attempt `k` saves a 200 body. */
  function NuLoop(url: string, paths: nat -> string, maxRetries: int, net: Net, a: nat): Trace
    decreases maxRetries - a
  {
    if a >= maxRetries then GiveUp
    else
      var sd := NuAttempt(url, paths(a), a, net(url, a));
      if sd.1.Return? then Finish(sd.0, sd.1.result)
      else Then(sd.0, NuLoop(url, paths, maxRetries, net, a + 1))
  }

  /** Where each attempt of a download of `url` into `dir` saves a 200 body. */
  function NuPaths(url: string, dir: string, clocks: Clocks): nat -> string {
    (k: nat) => NuPath(url, dir, clocks(url, k))
  }

  /** The whole call `download_pdf_with_retries(url, dir, max_retries)`. */
  function NuDownload(url: string, dir: string, maxRetries: int, net: Net, clocks: Clocks): Trace {
    NuLoop(url, NuPaths(url, dir, clocks), maxRetries, net, 0)
  }

  /** A 200 whose Content-Length parses, so that its body is streamed to the file. */
  predicate Streamed(o: Outcome) {
    o.Answer? && o.response.status == 200 && !o.response.lengthMalformed
  }

  /** A streamed 200 whose whole, non-empty body arrived. */
  predicate CompleteDownload(o: Outcome) {
    Streamed(o) && !o.response.interrupted && |Concat(o.response.body)| > 0
  }

  /** A streamed 200 whose body stream broke. */
  predicate BrokenStream(o: Outcome) {
    Streamed(o) && o.response.interrupted
  }

  /** A 403 or a 404. */
  predicate Refused(o: Outcome) {
    o.Answer? && (o.response.status == 403 || o.response.status == 404)
  }

  /**
   * The status table of one attempt: a complete non-empty 200 returns its path; 403 and
   * 404 return None; nothing else returns. 429 sleeps 2^a + [1,5] s; 5xx, other
   * statuses, transport errors, a broken stream and a 200 whose Content-Length does not
   * parse sleep 2^a + [1,3] s; an empty 200, a success and a 403/404 do not sleep. Only a
   * streamed 200 touches the disk, and only its path.
   */
  lemma NuAttemptTable(url: string, path: string, a: nat, o: Outcome)
    ensures var sd := NuAttempt(url, path, a, o);
      && sd.0.requested == [url]
      && (sd.1 == Return(Some(path)) <==> CompleteDownload(o))
      && (sd.1 == Return(None) <==> Refused(o))
      && (sd.1.Return? ==> sd.1 == Return(None) || sd.1 == Return(Some(path)))
      && (sd.0.sleep == Some(Sleep(a, 1, 5)) <==> o.Answer? && o.response.status == 429)
      && (sd.0.sleep.None? <==> CompleteDownload(o) || Refused(o)
                                || (Streamed(o) && !o.response.interrupted))
      && (sd.0.sleep.Some? ==> sd.0.sleep == Some(Sleep(a, 1, 5)) || sd.0.sleep == Some(Sleep(a, 1, 3)))
      && (sd.0.ops != [] ==> Streamed(o))
      && (forall i :: 0 <= i < |sd.0.ops| ==> Target(sd.0.ops[i]) == path)
  {
  }

  /** Every attempt issues one GET of the URL. */
  lemma NuAttemptAsksOnce(url: string, path: string, a: nat, o: Outcome)
    ensures NuAttempt(url, path, a, o).0.requested == [url]
  {
  }

  /**
   * The attempt ceiling: no more than `max_retries` GETs, all of `url`; with no attempts
   * left the call gives up with None; a call that returns a path, or that stops before
   * using up its attempts, was ended by its last attempt's decision.
   */
  lemma {:induction false} NuLoopCeiling(url: string, paths: nat -> string, maxRetries: int, net: Net, a: nat)
    ensures var t := NuLoop(url, paths, maxRetries, net, a);
      && (a >= maxRetries ==> t == GiveUp)
      && (a < maxRetries ==> 1 <= |t.requested| <= maxRetries - a)
      && (forall i :: 0 <= i < |t.requested| ==> t.requested[i] == url)
      && (a < maxRetries && (t.result.Some? || |t.requested| < maxRetries - a) ==>
            var last := a + |t.requested| - 1;
            NuAttempt(url, paths(last), last, net(url, last)).1 == Return(t.result))
    decreases maxRetries - a
  {
    if a < maxRetries {
      var sd := NuAttempt(url, paths(a), a, net(url, a));
      if sd.1.Continue? {
        NuLoopCeiling(url, paths, maxRetries, net, a + 1);
      }
    }
  }

  /**
   * Exhausting every attempt without a complete download returns None; a returned path is
   * the path of the last attempt, which completed.
   */
  lemma NuResultSource(url: string, paths: nat -> string, maxRetries: int, net: Net)
    ensures var t := NuLoop(url, paths, maxRetries, net, 0);
      && |t.requested| <= (if maxRetries < 0 then 0 else maxRetries)
      && (t.result.Some? ==>
            |t.requested| >= 1 && t.result.value == paths(|t.requested| - 1) && CompleteDownload(net(url, |t.requested| - 1)))
      && ((forall k: nat :: k < maxRetries ==> !CompleteDownload(net(url, k))) ==> t.result == None)
  {
    var t := NuLoop(url, paths, maxRetries, net, 0);
    NuLoopCeiling(url, paths, maxRetries, net, 0);
    if t.result.Some? {
      var last := |t.requested| - 1;
      NuAttemptTable(url, paths(last), last, net(url, last));
    }
  }

  /** A 403 or 404 ends the call at once: one GET, no sleep, no file, None. */
  lemma NuTerminalStatus(url: string, paths: nat -> string, maxRetries: int, net: Net, a: nat)
    requires a < maxRetries && Refused(net(url, a))
    ensures NuLoop(url, paths, maxRetries, net, a) == Trace(None, [url], [], [])
  {
  }

  /**
   * Under a server that answers 429 every time, the call makes exactly `max_retries` GETs,
   * sleeps 2^k + [1,5] s after the k-th of them, writes nothing and returns None.
   */
  lemma {:induction false} NuAlwaysRateLimited(url: string, paths: nat -> string, maxRetries: nat, net: Net, a: nat)
    requires forall k: nat :: net(url, k).Answer? && net(url, k).response.status == 429
    requires a <= maxRetries
    ensures var t := NuLoop(url, paths, maxRetries, net, a);
      && t.result == None
      && t.requested == seq(maxRetries - a, _ => url)
      && t.sleeps == Backoffs(a, maxRetries - a, 1, 5)
      && t.ops == []
    decreases maxRetries - a
  {
    if a < maxRetries {
      var sd := NuAttempt(url, paths(a), a, net(url, a));
      assert sd == (Step([url], Some(Sleep(a, 1, 5)), []), Continue) by {
        assert net(url, a).Answer? && net(url, a).response.status == 429;
      }
      NuAlwaysRateLimited(url, paths, maxRetries, net, a + 1);
      var t := NuLoop(url, paths, maxRetries, net, a + 1);
      assert NuLoop(url, paths, maxRetries, net, a) == Then(sd.0, t);
      assert [url] + t.requested == seq(maxRetries - a, _ => url);
    }
  }

  /**
   * The back-offs of the loop: at most one per GET, taken at strictly increasing attempts
   * in range, each waiting 2^k plus a jitter drawn from [1,3] or [1,5] seconds.
   */
  lemma {:induction false} NuBackoffSchedule(url: string, paths: nat -> string, maxRetries: int, net: Net, a: nat)
    ensures var t := NuLoop(url, paths, maxRetries, net, a);
      |t.sleeps| <= |t.requested| && Scheduled(t.sleeps, a, maxRetries)
    decreases maxRetries - a
  {
    if a < maxRetries {
      var sd := NuAttempt(url, paths(a), a, net(url, a));
      NuAttemptTable(url, paths(a), a, net(url, a));
      if sd.1.Continue? {
        NuBackoffSchedule(url, paths, maxRetries, net, a + 1);
        var rest := NuLoop(url, paths, maxRetries, net, a + 1).sleeps;
        var all := NuLoop(url, paths, maxRetries, net, a).sleeps;
        assert all == SleepsOf(sd.0) + rest;
        if sd.0.sleep.Some? {
          ScheduledCons(sd.0.sleep.value, rest, a, maxRetries);
        }
        assert Scheduled(all, a, maxRetries);
      }
    }
  }

  /**
   * Files other than the attempts' own paths are untouched: a path no attempt in range
   * saves to keeps its presence and content.
   */
  lemma {:induction false} NuOnlyOwnPaths(url: string, paths: nat -> string, maxRetries: int, net: Net, a: nat,
                                          files: map<string, seq<byte>>, q: string)
    requires forall k: nat :: a <= k < maxRetries ==> paths(k) != q
    ensures var t := NuLoop(url, paths, maxRetries, net, a);
      && (q in Apply(files, t.ops) <==> q in files)
      && (q in files ==> Apply(files, t.ops)[q] == files[q])
    decreases maxRetries - a
  {
    if a < maxRetries {
      var sd := NuAttempt(url, paths(a), a, net(url, a));
      NuAttemptTable(url, paths(a), a, net(url, a));
      ApplyFrame(files, sd.0.ops, q);
      if sd.1.Continue? {
        var mid := Apply(files, sd.0.ops);
        NuOnlyOwnPaths(url, paths, maxRetries, net, a + 1, mid, q);
        ApplyConcat(files, sd.0.ops, NuLoop(url, paths, maxRetries, net, a + 1).ops);
      }
    }
  }

  /** A returned path names a file that exists afterwards with the downloaded, non-empty content. */
  lemma {:induction false} NuSuccessLeavesFile(url: string, paths: nat -> string, maxRetries: int, net: Net, a: nat,
                                               files: map<string, seq<byte>>)
    ensures var t := NuLoop(url, paths, maxRetries, net, a);
      t.result.Some? ==> t.result.value in Apply(files, t.ops) && |Apply(files, t.ops)[t.result.value]| > 0
    decreases maxRetries - a
  {
    if a < maxRetries {
      var sd := NuAttempt(url, paths(a), a, net(url, a));
      var t := NuLoop(url, paths, maxRetries, net, a + 1);
      if sd.1.Continue? {
        NuSuccessLeavesFile(url, paths, maxRetries, net, a + 1, Apply(files, sd.0.ops));
        ApplyConcat(files, sd.0.ops, t.ops);
      } else if sd.1.result.Some? {
        var o := sd.0.ops;
        assert Apply(files, o) == Apply(files[paths(a) := o[0].content], o[1..]);
      }
    }
  }

  /**
   * When no body stream breaks, a call that returns None leaves the directory as it found
   * it, less any file it overwrote with an empty download: no new or partial file survives.
   */
  lemma {:induction false} NuFailureLeavesNoNewFile(url: string, paths: nat -> string, maxRetries: int, net: Net, a: nat,
                                                    files: map<string, seq<byte>>)
    requires forall k: nat :: a <= k < maxRetries ==> !BrokenStream(net(url, k))
    ensures var t := NuLoop(url, paths, maxRetries, net, a);
      t.result.None? ==> forall p :: p in Apply(files, t.ops) ==> p in files && Apply(files, t.ops)[p] == files[p]
    decreases maxRetries - a
  {
    if a < maxRetries {
      var sd := NuAttempt(url, paths(a), a, net(url, a));
      if sd.1.Continue? {
        var t := NuLoop(url, paths, maxRetries, net, a + 1);
        var mid := Apply(files, sd.0.ops);
        NuFailureLeavesNoNewFile(url, paths, maxRetries, net, a + 1, mid);
        ApplyConcat(files, sd.0.ops, t.ops);
        NuRetryRemovesEmptyFile(url, paths(a), a, net(url, a), files);
      }
    }
  }

  /** An attempt that retries without a broken stream leaves no file it did not find. */
  lemma NuRetryRemovesEmptyFile(url: string, path: string, a: nat, o: Outcome, files: map<string, seq<byte>>)
    requires !BrokenStream(o)
    ensures var sd := NuAttempt(url, path, a, o);
      sd.1.Continue? ==> forall p :: p in Apply(files, sd.0.ops) ==> p in files && Apply(files, sd.0.ops)[p] == files[p]
  {
    var sd := NuAttempt(url, path, a, o);
    if sd.1.Continue? && sd.0.ops != [] {
      assert sd.0.ops == [Write(path, []), Delete(path)];
      assert sd.0.ops[1..] == [Delete(path)];
      assert Apply(files, sd.0.ops) == Apply(files[path := []], [Delete(path)]);
      assert [Delete(path)][1..] == [];
      assert Apply(files, sd.0.ops) == Apply(files[path := []] - {path}, []);
    }
  }

  /**
   * When every attempt from `a` on retries and the stream of the last one breaks, the call
   * returns None and leaves that attempt's file holding the part of the body that arrived.
   */
  lemma {:induction false} NuBrokenStreamKeepsPartialFile(url: string, paths: nat -> string, maxRetries: int, net: Net,
                                                         a: nat, files: map<string, seq<byte>>)
    requires a < maxRetries && BrokenStream(net(url, maxRetries - 1))
    requires forall k: nat :: a <= k < maxRetries - 1 ==> NuAttempt(url, paths(k), k, net(url, k)).1.Continue?
    ensures var t := NuLoop(url, paths, maxRetries, net, a);
      var last := maxRetries - 1;
      && t.result == None
      && paths(last) in Apply(files, t.ops)
      && Apply(files, t.ops)[paths(last)] == Concat(net(url, last).response.body)
    decreases maxRetries - a
  {
    var sd := NuAttempt(url, paths(a), a, net(url, a));
    var rest := NuLoop(url, paths, maxRetries, net, a + 1);
    if a == maxRetries - 1 {
      var w := Write(paths(a), Concat(net(url, a).response.body));
      assert sd.0.ops == [w];
      assert NuLoop(url, paths, maxRetries, net, a).ops == [w] + [];
      assert [w][1..] == [];
    } else {
      NuBrokenStreamKeepsPartialFile(url, paths, maxRetries, net, a + 1, Apply(files, sd.0.ops));
      ApplyConcat(files, sd.0.ops, rest.ops);
    }
  }

  /**
   * Opens `path` for writing and writes the body chunk by chunk, skipping empty chunks and
   * counting the bytes written.
   */
  method StreamToFile(fs: FileSystem, path: string, body: seq<seq<byte>>) returns (downloadedSize: nat)
    modifies fs
    ensures fs.files == old(fs.files)[path := Concat(body)]
    ensures downloadedSize == |Concat(body)|
  {
    fs.Create(path);
    downloadedSize := 0;
    var i := 0;
    while i < |body|
      invariant 0 <= i <= |body|
      invariant fs.files == old(fs.files)[path := Concat(body[..i])]
      invariant downloadedSize == |Concat(body[..i])|
    {
      var chunk := body[i];
      assert body[..i + 1][..i] == body[..i];
      assert Concat(body[..i + 1]) == Concat(body[..i]) + chunk;
      if |chunk| > 0 {
        fs.Append(path, chunk);
        downloadedSize := downloadedSize + |chunk|;
      } else {
        assert Concat(body[..i]) + chunk == Concat(body[..i]);
      }
      assert fs.files == old(fs.files)[path := Concat(body[..i + 1])];
      i := i + 1;
    }
    assert body[..i] == body;
  }

  /**
   * One pass of the attempt loop's body: issue the GET, save a 200 body under this
   * attempt's path, and decide between returning, backing off and retrying.
   */
  method Attempt(url: string, paths: nat -> string, attempt: nat, outcome: Outcome, fs: FileSystem)
    returns (done: bool, path: Option<string>, sleep: Option<Sleep>)
    modifies fs
    ensures var sd := NuAttempt(url, paths(attempt), attempt, outcome);
      && done == sd.1.Return? && (done ==> path == sd.1.result) && sleep == sd.0.sleep
      && fs.files == Apply(old(fs.files), sd.0.ops)
  {
    done, path, sleep := false, None, None;
    if outcome.Answer? && outcome.response.status == 200 && outcome.response.lengthMalformed {
      sleep := Some(Sleep(attempt, 1, 3));
    } else if outcome.Answer? && outcome.response.status == 200 {
      var response := outcome.response;
      var filepath := paths(attempt);
      ghost var write := [Write(filepath, Concat(response.body))];
      assert Apply(old(fs.files), write) == Apply(old(fs.files)[filepath := Concat(response.body)], []);
      var downloadedSize := StreamToFile(fs, filepath, response.body);
      if response.interrupted {
        sleep := Some(Sleep(attempt, 1, 3));
      } else if fs.Exists(filepath) && |fs.files[filepath]| > 0 {
        done, path := true, Some(filepath);
      } else {
        fs.Remove(filepath);
        ghost var ops := [Write(filepath, []), Delete(filepath)];
        assert ops[1..] == [Delete(filepath)];
        assert Apply(old(fs.files), ops) == Apply(old(fs.files)[filepath := []], [Delete(filepath)]);
        assert Apply(old(fs.files)[filepath := []], [Delete(filepath)]) == Apply(old(fs.files)[filepath := []] - {filepath}, []);
      }
    } else if outcome.Answer? && outcome.response.status == 429 {
      sleep := Some(Sleep(attempt, 1, 5));
    } else if outcome.Answer? && (outcome.response.status == 403 || outcome.response.status == 404) {
      done := true;
    } else {
      sleep := Some(Sleep(attempt, 1, 3));
    }
  }

  /**
   * The attempt loop, for any assignment of save paths to attempts: it performs exactly
   * the loop's trace.
   */
  method RetryLoop(url: string, paths: nat -> string, maxRetries: int, net: Net, fs: FileSystem)
    returns (path: Option<string>, requested: seq<string>, sleeps: seq<Sleep>)
    modifies fs
    ensures var t := NuLoop(url, paths, maxRetries, net, 0);
      && path == t.result && requested == t.requested && sleeps == t.sleeps
      && fs.files == Apply(old(fs.files), t.ops)
  {
    ghost var whole := NuLoop(url, paths, maxRetries, net, 0);
    ghost var ops: seq<FileOp> := [];
    requested, sleeps := [], [];
    var attempt: nat := 0;
    assert whole == Prepend(requested, sleeps, ops, NuLoop(url, paths, maxRetries, net, attempt));
    while attempt < maxRetries
      invariant whole == Prepend(requested, sleeps, ops, NuLoop(url, paths, maxRetries, net, attempt))
      invariant fs.files == Apply(old(fs.files), ops)
      decreases maxRetries - attempt
    {
      ghost var sd := NuAttempt(url, paths(attempt), attempt, net(url, attempt));
      NuAttemptAsksOnce(url, paths(attempt), attempt, net(url, attempt));
      var done, result, sleep := Attempt(url, paths, attempt, net(url, attempt), fs);
      ApplyConcat(old(fs.files), ops, sd.0.ops);
      ghost var rest := NuLoop(url, paths, maxRetries, net, attempt + 1);
      if done {
        assert NuLoop(url, paths, maxRetries, net, attempt) == Finish(sd.0, result);
        PrependFinish(requested, sleeps, ops, sd.0, result);
      } else {
        assert NuLoop(url, paths, maxRetries, net, attempt) == Then(sd.0, rest);
        PrependThen(requested, sleeps, ops, sd.0, rest);
      }
      requested := requested + [url];
      if sleep.Some? {
        sleeps := sleeps + [sleep.value];
      } else {
        assert sleeps + SleepsOf(sd.0) == sleeps;
      }
      ops := ops + sd.0.ops;
      if done {
        return result, requested, sleeps;
      }
      attempt := attempt + 1;
    }
    PrependGiveUp(requested, sleeps, ops);
    path := None;
  }

  /**
   * `download_pdf_with_retries(url, save_dir, max_retries)`: the attempt loop, where a 200
   * body of attempt k is saved as `<save_dir>/<NuFilename(url, clock k)>`.
   */
  method DownloadPdfWithRetries(url: string, saveDir: string, maxRetries: int, net: Net, clocks: Clocks, fs: FileSystem)
    returns (path: Option<string>, requested: seq<string>, sleeps: seq<Sleep>)
    modifies fs
    ensures var t := NuDownload(url, saveDir, maxRetries, net, clocks);
      && path == t.result && requested == t.requested && sleeps == t.sleeps
      && fs.files == Apply(old(fs.files), t.ops)
  {
    path, requested, sleeps := RetryLoop(url, NuPaths(url, saveDir, clocks), maxRetries, net, fs);
  }
}
