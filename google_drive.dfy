/**
 * The ThaiJo crawler's Google Drive support (crawl/thaijo/fetch_pdf_urls.py):
 * `get_download_url_from_google_drive`, which rewrites a share link to the direct
 * download endpoint, and `download_pdf_from_google_drive`, which follows the virus-scan
 * confirmation cookie with a second GET and retries 429s, other statuses and
 * transport errors.
 */
module GoogleDrive {
  import opened Wrappers
  import opened Text
  import opened Files
  import opened Http
  import NuFetch

  /** `[a-zA-Z0-9_-]` */
  predicate IdChar(c: char) {
    ('a' <= c <= 'z') || ('A' <= c <= 'Z') || ('0' <= c <= '9') || c == '_' || c == '-'
  }

  /** A Drive file id: one or more id characters. */
  predicate DriveId(id: string) {
    id != [] && forall i :: 0 <= i < |id| ==> IdChar(id[i])
  }

  /** The first index at or after `i` that is not an id character (or `|s|`): the end of a greedy `[a-zA-Z0-9_-]+`. */
  function IdRunEnd(s: string, i: nat): (k: nat)
    requires i <= |s|
    ensures i <= k <= |s|
    decreases |s| - i
  {
    if i < |s| && IdChar(s[i]) then IdRunEnd(s, i + 1) else i
  }

  /** The run from `i` holds only id characters and stops at the end or at a character that is not one. */
  lemma {:induction false} IdRunEndShape(s: string, i: nat)
    requires i <= |s|
    ensures var k := IdRunEnd(s, i);
      && (forall j :: i <= j < k ==> IdChar(s[j]))
      && (k < |s| ==> !IdChar(s[k]))
    decreases |s| - i
  {
    if i < |s| && IdChar(s[i]) {
      IdRunEndShape(s, i + 1);
    }
  }

  /** `marker` followed by at least one id character starts at `j`. */
  predicate IdMatchAt(s: string, marker: string, j: nat) {
    OccursAt(s, marker, j) && j + |marker| < |s| && IdChar(s[j + |marker|])
  }

  /** Where `re.search(marker + "([a-zA-Z0-9_-]+)", s)` matches: the leftmost such start at or after `i`. */
  function FirstIdMatch(s: string, marker: string, i: nat): (r: Option<nat>)
    requires i <= |s|
    ensures r.Some? ==> i <= r.value && r.value + |marker| < |s|
    decreases |s| - i
  {
    if i == |s| then None
    else if IdMatchAt(s, marker, i) then Some(i)
    else FirstIdMatch(s, marker, i + 1)
  }

  /** The match found is one, and no start from `i` before it (or at all, when none is found) is one. */
  lemma {:induction false} FirstIdMatchIsLeftmost(s: string, marker: string, i: nat)
    requires i <= |s|
    ensures var r := FirstIdMatch(s, marker, i);
      && (r.Some? ==> IdMatchAt(s, marker, r.value))
      && (r.Some? ==> forall j: nat :: i <= j < r.value ==> !IdMatchAt(s, marker, j))
      && (r.None? ==> forall j: nat :: i <= j ==> !IdMatchAt(s, marker, j))
    decreases |s| - i
  {
    if i < |s| && !IdMatchAt(s, marker, i) {
      FirstIdMatchIsLeftmost(s, marker, i + 1);
    }
  }

  /** The id group of that search: the whole run of id characters after the leftmost marker. */
  function SearchId(s: string, marker: string): Option<string> {
    var m := FirstIdMatch(s, marker, 0);
    if m.None? then None
    else
      var v := m.value + |marker|;
      Some(s[v..IdRunEnd(s, v)])
  }

  /** The search finds an id exactly when the marker is followed by an id character somewhere, and what it finds is an id. */
  lemma SearchIdShape(s: string, marker: string)
    ensures var r := SearchId(s, marker);
      && (r.Some? ==> DriveId(r.value))
      && (r.Some? <==> exists j: nat :: IdMatchAt(s, marker, j))
  {
    FirstIdMatchIsLeftmost(s, marker, 0);
    var m := FirstIdMatch(s, marker, 0);
    if m.Some? {
      var v := m.value + |marker|;
      IdRunEndShape(s, v);
      var id := s[v..IdRunEnd(s, v)];
      assert forall i :: 0 <= i < |id| ==> id[i] == s[v + i];
    }
  }

  /** The file id of a share link: after the first `/d/`, else after the first `id=`. */
  function DriveFileId(url: string): Option<string> {
    var viaPath := SearchId(url, "/d/");
    if viaPath.Some? then viaPath else SearchId(url, "id=")
  }

  /** What a share link yields as its file id is a Drive id. */
  lemma DriveFileIdIsId(url: string)
    ensures DriveFileId(url).Some? ==> DriveId(DriveFileId(url).value)
  {
    SearchIdShape(url, "/d/");
    SearchIdShape(url, "id=");
  }

  /** The download endpoint, split around its one `=` before the id so that its shape can be reasoned about. */
  const EndpointHead: string := "https://drive.google.com/uc?export"
  const EndpointMiddle: string := "download&"
  const DownloadPrefix: string := EndpointHead + "=" + EndpointMiddle + "id="

  /** `f"https://drive.google.com/uc?export=download&id={file_id}"` */
  function DriveDownloadUrl(id: string): string {
    DownloadPrefix + id
  }

  /** `get_download_url_from_google_drive(url)` */
  function GetDownloadUrlFromGoogleDrive(url: string): (r: Option<string>)
    ensures r.None? <==> DriveFileId(url).None?
    ensures r.Some? ==> StartsWith(r.value, DownloadPrefix)
  {
    var id := DriveFileId(url);
    if id.None? then None else Some(DriveDownloadUrl(id.value))
  }

  /**
   * A share link is rewritten exactly when `/d/` or `id=` is followed by an id character
   * somewhere in it; the result is the download endpoint for an id taken from the link,
   * the one after `/d/` whenever there is one, even if an `id=` comes first.
   */
  lemma DriveUrlRewrite(url: string)
    ensures var r := GetDownloadUrlFromGoogleDrive(url);
      && (r.Some? <==> (exists j: nat :: IdMatchAt(url, "/d/", j)) || (exists j: nat :: IdMatchAt(url, "id=", j)))
      && (r.Some? ==> DriveId(DriveFileId(url).value) && r.value == DriveDownloadUrl(DriveFileId(url).value))
      && ((exists j: nat :: IdMatchAt(url, "/d/", j)) ==> DriveFileId(url) == SearchId(url, "/d/"))
  {
    SearchIdShape(url, "/d/");
    SearchIdShape(url, "id=");
  }

  lemma EndpointPiecesHaveNoEquals()
    ensures '=' !in EndpointHead && '=' !in EndpointMiddle
  {
  }

  /** An `id=` in the endpoint built for a Drive id can only be the one before the id. */
  lemma NoEarlyIdMarker(id: string, j: nat)
    requires DriveId(id) && j < |DownloadPrefix| - 3
    ensures !OccursAt(DriveDownloadUrl(id), "id=", j)
  {
    var s := DriveDownloadUrl(id);
    assert s[j] == DownloadPrefix[j] && s[j + 2] == DownloadPrefix[j + 2];
    if j + 2 < 34 {
      assert DownloadPrefix[j + 2] == EndpointHead[j + 2];
      EndpointPiecesHaveNoEquals();
    } else if j + 2 == 34 {
      assert DownloadPrefix[32] == EndpointHead[32];
    } else if j + 2 < 44 {
      assert DownloadPrefix[j + 2] == EndpointMiddle[j + 2 - 35];
      EndpointPiecesHaveNoEquals();
    } else {
      assert DownloadPrefix[44..] == "id=";
    }
    assert s[j..j + 3][0] == s[j] && s[j..j + 3][2] == s[j + 2];
  }

  /** `pdf_download_url.split("id=")[-1]`: the text after the last `id=`. */
  function UrlFileId(url: string): string {
    AfterLastSplit(url, "id=")
  }

  /** Reading the id back out of the endpoint built for it gives the id. */
  lemma DriveIdRoundTrip(id: string)
    requires DriveId(id)
    ensures UrlFileId(DriveDownloadUrl(id)) == id
  {
    var s := DriveDownloadUrl(id);
    assert |DownloadPrefix| == 47;
    forall j: nat | j < 44 ensures !OccursAt(s, "id=", j) {
      NoEarlyIdMarker(id, j);
    }
    assert OccursAt(s, "id=", 44) by {
      assert s[44..47] == DownloadPrefix[44..47];
    }
    var f := FindFrom(s, "id=", 0);
    assert f == Some(44);
    assert s[47..] == id;
    forall j: nat | j + 3 <= |id| ensures !OccursAt(id, "id=", j) {
      assert id[j..j + 3][2] == id[j + 2];
    }
    assert FindFrom(id, "id=", 0).None?;
    assert AfterLastSplit(id, "id=") == id;
  }

  /** The cookie names that carry the confirmation token start with this. */
  const WarningCookie: string := "download_warning"

  /** The value of the first cookie in jar order whose name starts with `download_warning`. */
  function ConfirmToken(cookies: seq<(string, string)>): (r: Option<string>)
    ensures r.None? <==> forall i :: 0 <= i < |cookies| ==> !StartsWith(cookies[i].0, WarningCookie)
    ensures r.Some? ==> exists i :: 0 <= i < |cookies| && StartsWith(cookies[i].0, WarningCookie)
                                    && r.value == cookies[i].1
                                    && forall j :: 0 <= j < i ==> !StartsWith(cookies[j].0, WarningCookie)
  {
    if cookies == [] then None
    else if StartsWith(cookies[0].0, WarningCookie) then Some(cookies[0].1)
    else
      var r := ConfirmToken(cookies[1..]);
      assert forall i :: 1 <= i < |cookies| ==> cookies[i] == cookies[1..][i - 1];
      r
  }

  /** The search loop over `response.cookies.items()`, stopping at the first match. */
  method FindConfirmToken(cookies: seq<(string, string)>) returns (token: Option<string>)
    ensures token == ConfirmToken(cookies)
  {
    token := None;
    var i := 0;
    while i < |cookies|
      invariant 0 <= i <= |cookies|
      invariant ConfirmToken(cookies) == ConfirmToken(cookies[i..])
    {
      var (key, value) := cookies[i];
      if StartsWith(key, WarningCookie) {
        token := Some(value);
        return;
      }
      assert cookies[i..][1..] == cookies[i + 1..];
      i := i + 1;
    }
  }

  /** `f"{pdf_download_url}&confirm={confirm_token}"` */
  function ConfirmUrl(url: string, token: string): string {
    url + "&confirm=" + token
  }

  /** A response without a Content-Disposition header: the downloader looks for a confirmation token. */
  predicate NeedsConfirm(o: Outcome) {
    o.Answer? && !o.response.contentDisposition
  }

  /** The token that response carries, if any; an empty one counts as none. */
  predicate HasToken(o: Outcome)
    requires o.Answer?
  {
    var t := ConfirmToken(o.response.cookies);
    t.Some? && t.value != []
  }

  /** What attempt `a` of a download of `url` acts on: the first response, or the confirmed one. */
  function FinalOutcome(url: string, a: nat, net: Net): Outcome {
    var first := net(url, a);
    if NeedsConfirm(first) && HasToken(first) then
      net(ConfirmUrl(url, ConfirmToken(first.response.cookies).value), a)
    else first
  }

  /** A 200 whose body arrived without the stream breaking. */
  predicate Delivered(o: Outcome) {
    o.Answer? && o.response.status == 200 && !o.response.interrupted
  }

  /** What the attempt does with the response it ends up with, having issued `requested`. */
  function DriveRespond(requested: seq<string>, o: Outcome, path: string, a: nat): (Step, Decision) {
    match o
    case Answer(r) =>
      if r.status == 429 then
        (Step(requested, Some(Sleep(a, 1, 5)), []), Continue)
      else if r.status != 200 then
        (Step(requested, Some(Sleep(a, 1, 3)), []), Continue)
      else
        var content := Concat(r.body);
        if r.interrupted then
          (Step(requested, Some(Sleep(a, 1, 3)), [Write(path, content)]), Continue)
        else
          (Step(requested, None, [Write(path, content)]), Return(Some(path)))
    case Timeout =>
      (Step(requested, Some(Sleep(a, 1, 3)), []), Continue)
    case ConnectionError =>
      (Step(requested, Some(Sleep(a, 1, 3)), []), Continue)
  }

  /**
   * One attempt: the GET, then, when the answer has no Content-Disposition header, either
   * the confirmed GET or giving up for want of a token; only then is the status looked at.
   */
  function DriveAttempt(url: string, path: string, a: nat, net: Net): (sd: (Step, Decision))
    ensures sd.1.Return? ==> sd.0.sleep.None?
  {
    var first := net(url, a);
    if NeedsConfirm(first) then
      if !HasToken(first) then (Step([url], None, []), Return(None))
      else
        var confirm := ConfirmUrl(url, ConfirmToken(first.response.cookies).value);
        DriveRespond([url, confirm], net(confirm, a), path, a)
    else DriveRespond([url], first, path, a)
  }

  /** The loop from attempt `a` on; `paths(k)` is where attempt `k` saves a 200 body. */
  function DriveLoop(url: string, paths: nat -> string, maxRetries: int, net: Net, a: nat): Trace
    decreases maxRetries - a
  {
    if a >= maxRetries then GiveUp
    else
      var sd := DriveAttempt(url, paths(a), a, net);
      if sd.1.Return? then Finish(sd.0, sd.1.result)
      else Then(sd.0, DriveLoop(url, paths, maxRetries, net, a + 1))
  }

  /** `f"{file_id}_{timestamp}.pdf"` with `file_id` the text after the URL's last `id=`. */
  function DriveFilename(url: string, stamp: string): string {
    UrlFileId(url) + "_" + stamp + ".pdf"
  }

  /** Where each attempt of a download of `url` into `dir` saves a 200 body. */
  function DrivePaths(url: string, dir: string, clocks: Clocks): nat -> string {
    (k: nat) => Join(dir, DriveFilename(url, clocks(url, k).stamp))
  }

  /** The whole call `download_pdf_from_google_drive(url, dir, max_retries)`. */
  function DriveDownload(url: string, dir: string, maxRetries: int, net: Net, clocks: Clocks): Trace {
    DriveLoop(url, DrivePaths(url, dir, clocks), maxRetries, net, 0)
  }

  /** A download of a rewritten share link saves its file as `<id>_<stamp>.pdf`, `id` being the share link's. */
  lemma DriveFileNamedAfterId(shareUrl: string, stamp: string)
    requires GetDownloadUrlFromGoogleDrive(shareUrl).Some?
    ensures DriveFilename(GetDownloadUrlFromGoogleDrive(shareUrl).value, stamp) == DriveFileId(shareUrl).value + "_" + stamp + ".pdf"
  {
    DriveFileIdIsId(shareUrl);
    DriveIdRoundTrip(DriveFileId(shareUrl).value);
  }

  /**
   * Where attempt `k` of a download of a rewritten share link saves: a file in `dir` named
   * `<id>_<stamp>.pdf`, `id` being the share link's, when the stamp holds no `/`.
   */
  lemma DrivePathNamedAfterId(shareUrl: string, dir: string, clocks: Clocks, k: nat)
    requires GetDownloadUrlFromGoogleDrive(shareUrl).Some?
    requires '/' !in clocks(GetDownloadUrlFromGoogleDrive(shareUrl).value, k).stamp
    ensures var link := GetDownloadUrlFromGoogleDrive(shareUrl).value;
      Basename(DrivePaths(link, dir, clocks)(k)) == DriveFileId(shareUrl).value + "_" + clocks(link, k).stamp + ".pdf"
  {
    var link := GetDownloadUrlFromGoogleDrive(shareUrl).value;
    var stamp := clocks(link, k).stamp;
    var id := DriveFileId(shareUrl).value;
    DriveFileIdIsId(shareUrl);
    DriveFileNamedAfterId(shareUrl, stamp);
    var name := id + "_" + stamp + ".pdf";
    assert DrivePaths(link, dir, clocks)(k) == Join(dir, name);
    forall i | 0 <= i < |name| ensures name[i] != '/' {
      if i < |id| {
        assert name[i] == id[i] && IdChar(id[i]);
      } else if i > |id| && i < |id| + 1 + |stamp| {
        assert name[i] == stamp[i - |id| - 1];
      } else if i >= |id| + 1 + |stamp| {
        assert name[i] == ".pdf"[i - |id| - 1 - |stamp|];
      }
    }
    JoinBasename(dir, name);
  }

  /**
   * The table of one attempt. It issues the GET and, exactly when that answer lacks
   * Content-Disposition but carries a token, the confirmed GET. It gives up with None
   * exactly when the answer lacks Content-Disposition and carries no token, whatever its
   * status; it returns its path exactly when the response it ends with is a delivered 200.
   * 429 sleeps 2^a + [1,5] s; any other status, a transport error or a broken stream
   * sleeps 2^a + [1,3] s and retries. Only a 200 touches the disk, and only its path.
   */
  lemma DriveAttemptTable(url: string, path: string, a: nat, net: Net)
    ensures var sd := DriveAttempt(url, path, a, net);
      var first := net(url, a);
      var last := FinalOutcome(url, a, net);
      && 1 <= |sd.0.requested| <= 2 && sd.0.requested[0] == url
      && (|sd.0.requested| == 2 <==> NeedsConfirm(first) && HasToken(first))
      && (|sd.0.requested| == 2 ==> sd.0.requested[1] == ConfirmUrl(url, ConfirmToken(first.response.cookies).value))
      && (sd.1 == Return(None) <==> NeedsConfirm(first) && !HasToken(first))
      && (sd.1 == Return(Some(path)) <==> !(NeedsConfirm(first) && !HasToken(first)) && Delivered(last))
      && (sd.1.Return? ==> sd.1 == Return(None) || sd.1 == Return(Some(path)))
      && (sd.1.Continue? ==> sd.0.sleep.Some?)
      && (sd.0.sleep == Some(Sleep(a, 1, 5)) <==> !(NeedsConfirm(first) && !HasToken(first)) && last.Answer? && last.response.status == 429)
      && (sd.0.sleep.Some? ==> sd.0.sleep == Some(Sleep(a, 1, 5)) || sd.0.sleep == Some(Sleep(a, 1, 3)))
      && (sd.0.ops != [] ==> last.Answer? && last.response.status == 200)
      && (forall i :: 0 <= i < |sd.0.ops| ==> Target(sd.0.ops[i]) == path)
  {
  }

  /** Every GET of a call is of `url` itself or of `url` with a confirmation appended. */
  predicate OwnRequests(url: string, requested: seq<string>) {
    forall i :: 0 <= i < |requested| ==> StartsWith(requested[i], url)
  }

  /**
   * The attempt ceiling: at most `max_retries` attempts of one or two GETs each; a call that
   * returns a path was ended by an attempt whose final response was a delivered 200.
   */
  lemma {:induction false} DriveLoopCeiling(url: string, paths: nat -> string, maxRetries: int, net: Net, a: nat)
    ensures var t := DriveLoop(url, paths, maxRetries, net, a);
      && (a >= maxRetries ==> t == GiveUp)
      && |t.requested| <= 2 * (if a >= maxRetries then 0 else maxRetries - a)
      && OwnRequests(url, t.requested)
      && |t.sleeps| <= (if a >= maxRetries then 0 else maxRetries - a)
      && (t.result.Some? ==> exists k: nat :: a <= k < maxRetries && t.result.value == paths(k) && Delivered(FinalOutcome(url, k, net)))
    decreases maxRetries - a
  {
    if a < maxRetries {
      var sd := DriveAttempt(url, paths(a), a, net);
      DriveAttemptTable(url, paths(a), a, net);
      var t := DriveLoop(url, paths, maxRetries, net, a);
      if NeedsConfirm(net(url, a)) && HasToken(net(url, a)) {
        var c := ConfirmUrl(url, ConfirmToken(net(url, a).response.cookies).value);
        assert c[..|url|] == url;
      }
      assert OwnRequests(url, sd.0.requested);
      if sd.1.Continue? {
        DriveLoopCeiling(url, paths, maxRetries, net, a + 1);
        var rest := DriveLoop(url, paths, maxRetries, net, a + 1);
        assert t.requested == sd.0.requested + rest.requested;
        assert t.result == rest.result;
      } else {
        assert t.requested == sd.0.requested;
      }
    }
  }

  /**
   * An answer without Content-Disposition and without a token ends the call at once, even
   * a 429 or a 200: one GET, no sleep, no file, None.
   */
  lemma DriveStopsWithoutToken(url: string, paths: nat -> string, maxRetries: int, net: Net, a: nat)
    requires a < maxRetries && NeedsConfirm(net(url, a)) && !HasToken(net(url, a))
    ensures DriveLoop(url, paths, maxRetries, net, a) == Trace(None, [url], [], [])
  {
  }

  /**
   * Unlike the ThaiJo downloader, a server error is retried: a server that always answers
   * 503 with Content-Disposition gets `max_retries` GETs, each followed by a back-off.
   */
  lemma {:induction false} DriveRetriesServerErrors(url: string, paths: nat -> string, maxRetries: nat, net: Net, a: nat)
    requires forall k: nat :: net(url, k).Answer? && net(url, k).response.status == 503 && net(url, k).response.contentDisposition
    requires a <= maxRetries
    ensures var t := DriveLoop(url, paths, maxRetries, net, a);
      && t.result == None && t.ops == []
      && t.requested == seq(maxRetries - a, _ => url)
      && t.sleeps == Backoffs(a, maxRetries - a, 1, 3)
    decreases maxRetries - a
  {
    if a < maxRetries {
      var sd := DriveAttempt(url, paths(a), a, net);
      assert sd == (Step([url], Some(Sleep(a, 1, 3)), []), Continue) by {
        assert !NeedsConfirm(net(url, a)) && net(url, a).response.status == 503;
      }
      DriveRetriesServerErrors(url, paths, maxRetries, net, a + 1);
      var t := DriveLoop(url, paths, maxRetries, net, a + 1);
      assert DriveLoop(url, paths, maxRetries, net, a) == Then(sd.0, t);
      assert [url] + t.requested == seq(maxRetries - a, _ => url);
    }
  }

  /** One pass of the attempt loop's body. */
  method Attempt(url: string, paths: nat -> string, attempt: nat, net: Net, fs: FileSystem)
    returns (done: bool, path: Option<string>, requested: seq<string>, sleep: Option<Sleep>)
    modifies fs
    ensures var sd := DriveAttempt(url, paths(attempt), attempt, net);
      && done == sd.1.Return? && (done ==> path == sd.1.result) && requested == sd.0.requested && sleep == sd.0.sleep
      && fs.files == Apply(old(fs.files), sd.0.ops)
  {
    done, path, sleep := false, None, None;
    var response := net(url, attempt);
    requested := [url];
    if response.Answer? && !response.response.contentDisposition {
      var token := FindConfirmToken(response.response.cookies);
      if token.None? || token.value == [] {
        done := true;
        return;
      }
      var confirmUrl := url + "&confirm=" + token.value;
      response := net(confirmUrl, attempt);
      requested := requested + [confirmUrl];
    }
    if response.Answer? && response.response.status == 429 {
      sleep := Some(Sleep(attempt, 1, 5));
    } else if response.Answer? && response.response.status != 200 {
      sleep := Some(Sleep(attempt, 1, 3));
    } else if response.Answer? {
      var filepath := paths(attempt);
      ghost var write := [Write(filepath, Concat(response.response.body))];
      assert Apply(old(fs.files), write) == Apply(old(fs.files)[filepath := Concat(response.response.body)], []);
      var _ := NuFetch.StreamToFile(fs, filepath, response.response.body);
      if response.response.interrupted {
        sleep := Some(Sleep(attempt, 1, 3));
      } else {
        done, path := true, Some(filepath);
      }
    } else {
      sleep := Some(Sleep(attempt, 1, 3));
    }
  }

  /** The attempt loop, for any assignment of save paths to attempts: it performs exactly the loop's trace. */
  method RetryLoop(url: string, paths: nat -> string, maxRetries: int, net: Net, fs: FileSystem)
    returns (path: Option<string>, requested: seq<string>, sleeps: seq<Sleep>)
    modifies fs
    ensures var t := DriveLoop(url, paths, maxRetries, net, 0);
      && path == t.result && requested == t.requested && sleeps == t.sleeps
      && fs.files == Apply(old(fs.files), t.ops)
  {
    ghost var whole := DriveLoop(url, paths, maxRetries, net, 0);
    ghost var ops: seq<FileOp> := [];
    requested, sleeps := [], [];
    var attempt: nat := 0;
    assert whole == Prepend(requested, sleeps, ops, DriveLoop(url, paths, maxRetries, net, attempt));
    while attempt < maxRetries
      invariant whole == Prepend(requested, sleeps, ops, DriveLoop(url, paths, maxRetries, net, attempt))
      invariant fs.files == Apply(old(fs.files), ops)
      decreases maxRetries - attempt
    {
      ghost var sd := DriveAttempt(url, paths(attempt), attempt, net);
      DriveAttemptTable(url, paths(attempt), attempt, net);
      var done, result, issued, sleep := Attempt(url, paths, attempt, net, fs);
      ApplyConcat(old(fs.files), ops, sd.0.ops);
      if done {
        PrependFinish(requested, sleeps, ops, sd.0, result);
      } else {
        PrependThen(requested, sleeps, ops, sd.0, DriveLoop(url, paths, maxRetries, net, attempt + 1));
      }
      requested := requested + issued;
      if sleep.Some? {
        sleeps := sleeps + [sleep.value];
      }
      ops := ops + sd.0.ops;
      if done {
        return result, requested, sleeps;
      }
      attempt := attempt + 1;
    }
    PrependGiveUp(requested, sleeps, ops);
    path := None;
  }

  /**
   * `download_pdf_from_google_drive(url, save_dir, max_retries)`: the attempt loop, where a
   * 200 body of attempt k is saved as `<save_dir>/<id>_<stamp k>.pdf`.
   */
  method DownloadPdfFromGoogleDrive(url: string, saveDir: string, maxRetries: int, net: Net, clocks: Clocks, fs: FileSystem)
    returns (path: Option<string>, requested: seq<string>, sleeps: seq<Sleep>)
    modifies fs
    ensures var t := DriveDownload(url, saveDir, maxRetries, net, clocks);
      && path == t.result && requested == t.requested && sleeps == t.sleeps
      && fs.files == Apply(old(fs.files), t.ops)
  {
    path, requested, sleeps := RetryLoop(url, DrivePaths(url, saveDir, clocks), maxRetries, net, fs);
  }
}
