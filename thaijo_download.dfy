/**
 * The ThaiJo crawler's retrying downloader (`download_pdf_with_retries` in
 * crawl/thaijo/fetch_pdf_urls.py): one streaming GET per attempt, up to `max_retries`
 * attempts. A 200 is saved and returned whatever its size; a 429 backs off and retries;
 * every other status (5xx included) gives up at once; a transport error or a broken body
 * stream backs off and retries. The file keeps the URL's own extension.
 */
module ThaijoDownload {
  import opened Wrappers
  import opened Text
  import opened Files
  import opened Http
  import NuFetch

  /** The extension of the saved file: the base name's own, or `.pdf` when it has none. */
  function TjExt(url: string, clock: Clock): (r: string)
    ensures r != [] && r[0] == '.'
  {
    var ext := SplitExt(FileBase(url, clock)).1;
    SplitExtShape(FileBase(url, clock));
    if ext == [] then ".pdf" else ext
  }

  /** `f"{name}_{timestamp}{ext}"`, where `name, ext = os.path.splitext(basename)`. */
  function TjFilename(url: string, clock: Clock): string {
    SplitExt(FileBase(url, clock)).0 + "_" + clock.stamp + TjExt(url, clock)
  }

  /**
   * `<root>_<stamp><ext>`, the extension defaulting to `.pdf`, read back: the stamp sits
   * right before the extension, and what surrounds it is the name plus any default.
   */
  lemma StampedName(root: string, ext: string, stamp: string)
    ensures var e := if ext == [] then ".pdf" else ext;
      var f := root + "_" + stamp + e;
      var cut := |f| - |e| - |stamp| - 1;
      && cut == |root| && EndsWith(f, e)
      && f[cut..|f| - |e|] == "_" + stamp
      && f[..cut] + e == (if ext == [] then root + ext + ".pdf" else root + ext)
  {
    var e := if ext == [] then ".pdf" else ext;
    FourPieces(root, "_", stamp, e);
    if ext == [] {
      assert root + ext == root;
    }
  }

  /**
   * The file name is the whole base name, not cut short, with `_<stamp>` put before its
   * extension; an existing extension is kept as it is and `.pdf` is added only when there
   * is none. So taking `_<stamp>` back out gives the base name, plus `.pdf` if it had no
   * extension.
   */
  lemma TjFilenameKeepsBase(url: string, clock: Clock)
    ensures var b := FileBase(url, clock);
      var f := TjFilename(url, clock);
      var e := TjExt(url, clock);
      var cut := |f| - |e| - |clock.stamp| - 1;
      && 0 <= cut && EndsWith(f, e)
      && f[cut..|f| - |e|] == "_" + clock.stamp
      && f[..cut] + e == (if SplitExt(b).1 == [] then b + ".pdf" else b)
      && (SplitExt(b).1 != [] ==> e == SplitExt(b).1)
  {
    var b := FileBase(url, clock);
    var parts := SplitExt(b);
    StampedName(parts.0, parts.1, clock.stamp);
    assert TjExt(url, clock) == (if parts.1 == [] then ".pdf" else parts.1);
    assert TjFilename(url, clock) == parts.0 + "_" + clock.stamp + TjExt(url, clock);
    assert parts.0 + parts.1 == b;
  }

  /** A 200 whose body arrived without the stream breaking (possibly empty). */
  predicate Delivered(o: Outcome) {
    o.Answer? && o.response.status == 200 && !o.response.interrupted
  }

  /** An answer with a status other than 200 and 429: the downloader gives up on it. */
  predicate Rejected(o: Outcome) {
    o.Answer? && o.response.status != 200 && o.response.status != 429
  }

  /** One attempt of the loop, given its outcome and the path a 200 answer is saved to. */
  function TjAttempt(url: string, path: string, a: nat, o: Outcome): (sd: (Step, Decision))
    ensures sd.1.Return? ==> sd.0.sleep.None?
  {
    match o
    case Answer(r) =>
      if r.status == 200 then
        var content := Concat(r.body);
        if r.interrupted then
          // the stream raised while the file was being written: it stays, and the handler backs off
          (Step([url], Some(Sleep(a, 1, 3)), [Write(path, content)]), Continue)
        else
          (Step([url], None, [Write(path, content)]), Return(Some(path)))
      else if r.status == 429 then
        (Step([url], Some(Sleep(a, 1, 5)), []), Continue)
      else
        (Step([url], None, []), Return(None))
    case Timeout =>
      (Step([url], Some(Sleep(a, 1, 3)), []), Continue)
    case ConnectionError =>
      (Step([url], Some(Sleep(a, 1, 3)), []), Continue)
  }

  /** The loop from attempt `a` on; `paths(k)` is where attempt `k` saves a 200 body. */
  function TjLoop(url: string, paths: nat -> string, maxRetries: int, net: Net, a: nat): Trace
    decreases maxRetries - a
  {
    if a >= maxRetries then GiveUp
    else
      var sd := TjAttempt(url, paths(a), a, net(url, a));
      if sd.1.Return? then Finish(sd.0, sd.1.result)
      else Then(sd.0, TjLoop(url, paths, maxRetries, net, a + 1))
  }

  /** Where each attempt of a download of `url` into `dir` saves a 200 body. */
  function TjPaths(url: string, dir: string, clocks: Clocks): nat -> string {
    (k: nat) => Join(dir, TjFilename(url, clocks(url, k)))
  }

  /** The whole call `download_pdf_with_retries(url, dir, max_retries)`. */
  function TjDownload(url: string, dir: string, maxRetries: int, net: Net, clocks: Clocks): Trace {
    TjLoop(url, TjPaths(url, dir, clocks), maxRetries, net, 0)
  }

  /**
   * The status table of one attempt: a delivered 200 returns its path, whatever the body's
   * size; any status but 200 and 429 returns None; nothing else returns. 429 sleeps
   * 2^a + [1,5] s; transport errors and a broken stream sleep 2^a + [1,3] s; a return
   * never sleeps. Only a 200 touches the disk, and only its path.
   */
  lemma TjAttemptTable(url: string, path: string, a: nat, o: Outcome)
    ensures var sd := TjAttempt(url, path, a, o);
      && sd.0.requested == [url]
      && (sd.1 == Return(Some(path)) <==> Delivered(o))
      && (sd.1 == Return(None) <==> Rejected(o))
      && (sd.1.Return? ==> sd.1 == Return(None) || sd.1 == Return(Some(path)))
      && (sd.0.sleep == Some(Sleep(a, 1, 5)) <==> o.Answer? && o.response.status == 429)
      && (sd.0.sleep == Some(Sleep(a, 1, 3)) <==> !o.Answer? || (o.response.status == 200 && o.response.interrupted))
      && (sd.0.sleep.None? <==> sd.1.Return?)
      && (sd.0.ops != [] <==> o.Answer? && o.response.status == 200)
      && (forall i :: 0 <= i < |sd.0.ops| ==> Target(sd.0.ops[i]) == path)
  {
  }

  /**
   * The attempt ceiling: no more than `max_retries` GETs, all of `url`; with no attempts
   * left the call gives up with None; a call that stops before using up its attempts, or
   * returns a path, was ended by its last attempt's decision.
   */
  lemma {:induction false} TjLoopCeiling(url: string, paths: nat -> string, maxRetries: int, net: Net, a: nat)
    ensures var t := TjLoop(url, paths, maxRetries, net, a);
      && (a >= maxRetries ==> t == GiveUp)
      && (a < maxRetries ==> 1 <= |t.requested| <= maxRetries - a)
      && (forall i :: 0 <= i < |t.requested| ==> t.requested[i] == url)
      && (a < maxRetries && (t.result.Some? || |t.requested| < maxRetries - a) ==>
            var last := a + |t.requested| - 1;
            TjAttempt(url, paths(last), last, net(url, last)).1 == Return(t.result))
    decreases maxRetries - a
  {
    if a < maxRetries {
      var sd := TjAttempt(url, paths(a), a, net(url, a));
      var t := TjLoop(url, paths, maxRetries, net, a);
      TjAttemptTable(url, paths(a), a, net(url, a));
      if sd.1.Continue? {
        TjLoopCeiling(url, paths, maxRetries, net, a + 1);
        var rest := TjLoop(url, paths, maxRetries, net, a + 1);
        assert t.requested == [url] + rest.requested && t.result == rest.result;
      } else {
        assert t.requested == [url] && t.result == sd.1.result;
      }
    }
  }

  /**
   * A returned path is that of the last attempt, whose 200 was delivered; a call none of
   * whose attempts is delivered returns None; a call that ends early with None was ended
   * by a status other than 200 and 429.
   */
  lemma TjResultSource(url: string, paths: nat -> string, maxRetries: int, net: Net)
    ensures var t := TjLoop(url, paths, maxRetries, net, 0);
      && |t.requested| <= (if maxRetries < 0 then 0 else maxRetries)
      && (t.result.Some? ==>
            |t.requested| >= 1 && t.result.value == paths(|t.requested| - 1) && Delivered(net(url, |t.requested| - 1)))
      && (t.result.None? && 0 < |t.requested| < maxRetries ==> Rejected(net(url, |t.requested| - 1)))
      && ((forall k: nat :: k < maxRetries ==> !Delivered(net(url, k))) ==> t.result == None)
  {
    var t := TjLoop(url, paths, maxRetries, net, 0);
    TjLoopCeiling(url, paths, maxRetries, net, 0);
    if |t.requested| > 0 {
      var last := |t.requested| - 1;
      TjAttemptTable(url, paths(last), last, net(url, last));
    }
  }

  /** Any status other than 200 and 429, 5xx included, ends the call at once: one GET, no sleep, no file. */
  lemma TjGivesUpOnOtherStatus(url: string, paths: nat -> string, maxRetries: int, net: Net, a: nat)
    requires a < maxRetries && Rejected(net(url, a))
    ensures TjLoop(url, paths, maxRetries, net, a) == Trace(None, [url], [], [])
  {
  }

  /**
   * No size check: a 200 whose body arrived whole but empty, at whatever attempt the loop
   * has reached, is saved as an empty file and its path returned after that one GET.
   */
  lemma TjEmptyBodyIsSaved(url: string, paths: nat -> string, maxRetries: int, net: Net, a: nat,
                           files: map<string, seq<byte>>)
    requires a < maxRetries && Delivered(net(url, a)) && Concat(net(url, a).response.body) == []
    ensures var t := TjLoop(url, paths, maxRetries, net, a);
      && t.result == Some(paths(a)) && t.requested == [url]
      && paths(a) in Apply(files, t.ops) && Apply(files, t.ops)[paths(a)] == []
  {
    TjAttemptTable(url, paths(a), a, net(url, a));
    TjSavedAttempt(url, paths(a), a, net(url, a), files);
    TjReturnStep(url, paths, maxRetries, net, a);
  }

  /** A returned path names a file that exists afterwards, holding the body of the attempt that returned it. */
  lemma {:induction false} TjSuccessLeavesFile(url: string, paths: nat -> string, maxRetries: int, net: Net, a: nat,
                                               files: map<string, seq<byte>>)
    ensures var t := TjLoop(url, paths, maxRetries, net, a);
      t.result.Some? ==>
        var last := a + |t.requested| - 1;
        && t.result.value in Apply(files, t.ops)
        && net(url, last).Answer? && Apply(files, t.ops)[t.result.value] == Concat(net(url, last).response.body)
    decreases maxRetries - a
  {
    if a < maxRetries {
      var sd := TjAttempt(url, paths(a), a, net(url, a));
      var t := TjLoop(url, paths, maxRetries, net, a + 1);
      if sd.1.Continue? {
        var mid := Apply(files, sd.0.ops);
        TjSuccessLeavesFile(url, paths, maxRetries, net, a + 1, mid);
        ApplyConcat(files, sd.0.ops, t.ops);
        TjContinueStep(url, paths, maxRetries, net, a);
      } else {
        TjSavedAttempt(url, paths(a), a, net(url, a), files);
        TjReturnStep(url, paths, maxRetries, net, a);
      }
    }
  }

  /** An attempt that goes on puts its one GET and its file operations before the rest of the loop. */
  lemma TjContinueStep(url: string, paths: nat -> string, maxRetries: int, net: Net, a: nat)
    requires a < maxRetries && TjAttempt(url, paths(a), a, net(url, a)).1.Continue?
    ensures var sd := TjAttempt(url, paths(a), a, net(url, a));
      var t0, t := TjLoop(url, paths, maxRetries, net, a), TjLoop(url, paths, maxRetries, net, a + 1);
      t0.result == t.result && |t0.requested| == 1 + |t.requested| && t0.ops == sd.0.ops + t.ops
  {
  }

  /** An attempt that returns is the whole rest of the loop. */
  lemma TjReturnStep(url: string, paths: nat -> string, maxRetries: int, net: Net, a: nat)
    requires a < maxRetries && TjAttempt(url, paths(a), a, net(url, a)).1.Return?
    ensures var sd := TjAttempt(url, paths(a), a, net(url, a));
      var t0 := TjLoop(url, paths, maxRetries, net, a);
      t0.result == sd.1.result && |t0.requested| == 1 && t0.ops == sd.0.ops
  {
  }

  /** An attempt that returns a path has just written the response body to it. */
  lemma TjSavedAttempt(url: string, path: string, a: nat, o: Outcome, files: map<string, seq<byte>>)
    ensures var sd := TjAttempt(url, path, a, o);
      sd.1 == Return(Some(path)) ==>
        && o.Answer? && sd.0.ops == [Write(path, Concat(o.response.body))]
        && path in Apply(files, sd.0.ops) && Apply(files, sd.0.ops)[path] == Concat(o.response.body)
  {
    var sd := TjAttempt(url, path, a, o);
    if sd.1 == Return(Some(path)) {
      var w := [Write(path, Concat(o.response.body))];
      assert w[1..] == [];
      assert Apply(files, w) == Apply(files[path := Concat(o.response.body)], []);
    }
  }

  /**
   * One pass of the attempt loop's body: issue the GET, save a 200 body under this
   * attempt's path, and decide between returning, backing off and giving up.
   */
  method Attempt(url: string, paths: nat -> string, attempt: nat, outcome: Outcome, fs: FileSystem)
    returns (done: bool, path: Option<string>, sleep: Option<Sleep>)
    modifies fs
    ensures var sd := TjAttempt(url, paths(attempt), attempt, outcome);
      && done == sd.1.Return? && (done ==> path == sd.1.result) && sleep == sd.0.sleep
      && fs.files == Apply(old(fs.files), sd.0.ops)
  {
    done, path, sleep := false, None, None;
    if outcome.Answer? && outcome.response.status == 200 {
      var response := outcome.response;
      var filepath := paths(attempt);
      ghost var write := [Write(filepath, Concat(response.body))];
      assert Apply(old(fs.files), write) == Apply(old(fs.files)[filepath := Concat(response.body)], []);
      var _ := NuFetch.StreamToFile(fs, filepath, response.body);
      if response.interrupted {
        sleep := Some(Sleep(attempt, 1, 3));
      } else {
        done, path := true, Some(filepath);
      }
    } else if outcome.Answer? && outcome.response.status == 429 {
      sleep := Some(Sleep(attempt, 1, 5));
    } else if outcome.Answer? {
      done := true;
    } else {
      sleep := Some(Sleep(attempt, 1, 3));
    }
  }

  /** The attempt loop, for any assignment of save paths to attempts: it performs exactly the loop's trace. */
  method RetryLoop(url: string, paths: nat -> string, maxRetries: int, net: Net, fs: FileSystem)
    returns (path: Option<string>, requested: seq<string>, sleeps: seq<Sleep>)
    modifies fs
    ensures var t := TjLoop(url, paths, maxRetries, net, 0);
      && path == t.result && requested == t.requested && sleeps == t.sleeps
      && fs.files == Apply(old(fs.files), t.ops)
  {
    ghost var whole := TjLoop(url, paths, maxRetries, net, 0);
    ghost var ops: seq<FileOp> := [];
    requested, sleeps := [], [];
    var attempt: nat := 0;
    assert whole == Prepend(requested, sleeps, ops, TjLoop(url, paths, maxRetries, net, attempt));
    while attempt < maxRetries
      invariant whole == Prepend(requested, sleeps, ops, TjLoop(url, paths, maxRetries, net, attempt))
      invariant fs.files == Apply(old(fs.files), ops)
      decreases maxRetries - attempt
    {
      ghost var sd := TjAttempt(url, paths(attempt), attempt, net(url, attempt));
      TjAttemptTable(url, paths(attempt), attempt, net(url, attempt));
      var done, result, sleep := Attempt(url, paths, attempt, net(url, attempt), fs);
      ApplyConcat(old(fs.files), ops, sd.0.ops);
      if done {
        PrependFinish(requested, sleeps, ops, sd.0, result);
      } else {
        PrependThen(requested, sleeps, ops, sd.0, TjLoop(url, paths, maxRetries, net, attempt + 1));
      }
      requested := requested + [url];
      if sleep.Some? {
        sleeps := sleeps + [sleep.value];
      }
      ops := ops + sd.0.ops;
      if done {
        return result, requested, sleeps;
      }
      attempt := attempt + 1;
    }
    PrependGiveUp(requested, sleeps, ops);
    path := None;
  }

  /**
   * `download_pdf_with_retries(url, save_dir, max_retries)`: the attempt loop, where a 200
   * body of attempt k is saved as `<save_dir>/<TjFilename(url, clock k)>`.
   */
  method DownloadPdfWithRetries(url: string, saveDir: string, maxRetries: int, net: Net, clocks: Clocks, fs: FileSystem)
    returns (path: Option<string>, requested: seq<string>, sleeps: seq<Sleep>)
    modifies fs
    ensures var t := TjDownload(url, saveDir, maxRetries, net, clocks);
      && path == t.result && requested == t.requested && sleeps == t.sleeps
      && fs.files == Apply(old(fs.files), t.ops)
  {
    path, requested, sleeps := RetryLoop(url, TjPaths(url, saveDir, clocks), maxRetries, net, fs);
  }
}
