/**
 * The shared PDF helpers (utils/pdf_operations.py): the HEAD-request filter that keeps
 * the URLs serving PDFs, the batch downloader that names each file after the URL's last
 * segment and never overwrites, and the collection of the distinct URLs listed one per
 * line in a folder's `.txt` files.
 */
module PdfOperations {
  import opened Wrappers
  import opened Text
  import opened Files
  import opened Http

  /** The remote side of one kind of request: the outcome of requesting `url`. */
  type Remote = string -> Outcome

  /** `raise_for_status()` raises for every 4xx and 5xx status. */
  predicate FailedStatus(status: int) {
    400 <= status < 600
  }

  // ---------------------------------------------------------------------------------------
  // check_pdf_downloadable
  // ---------------------------------------------------------------------------------------

  /**
   * The HEAD request went through, its status is not an error, and its Content-Type holds
   * `pdf` once lower-cased. Lower-casing maps a character to `p`, `d` or `f` only when it
   * is that letter in either case, so `'pdf' in content_type.lower()` is `ContainsCI`.
   */
  predicate ServesPdf(head: Outcome) {
    && head.Answer?
    && !FailedStatus(head.response.status)
    && ContainsCI(head.response.contentType, "pdf")
  }

  /** The URLs whose HEAD answer says PDF, in input order. */
  function KeptPdfs(urls: seq<string>, heads: Remote): (r: seq<string>)
    ensures |r| <= |urls|
  {
    if urls == [] then []
    else
      var rest := KeptPdfs(urls[..|urls| - 1], heads);
      var u := urls[|urls| - 1];
      if ServesPdf(heads(u)) then rest + [u] else rest
  }

  /** `a` is `b` with some elements left out, order kept. */
  predicate Subsequence<T(==)>(a: seq<T>, b: seq<T>)
    decreases |b|
  {
    || a == []
    || (&& b != []
        && (|| (a[|a| - 1] == b[|b| - 1] && Subsequence(a[..|a| - 1], b[..|b| - 1]))
            || Subsequence(a, b[..|b| - 1])))
  }

  /** A URL is kept exactly when it is one of the inputs and its HEAD answer says PDF. */
  lemma {:induction false} KeptPdfsMembers(urls: seq<string>, heads: Remote, u: string)
    ensures u in KeptPdfs(urls, heads) <==> u in urls && ServesPdf(heads(u))
    decreases |urls|
  {
    if urls != [] {
      var init := urls[..|urls| - 1];
      KeptPdfsMembers(init, heads, u);
      assert urls == init + [urls[|urls| - 1]];
    }
  }

  /** The kept URLs are the input with some URLs left out: nothing added, order kept. */
  lemma {:induction false} KeptPdfsSubsequence(urls: seq<string>, heads: Remote)
    ensures Subsequence(KeptPdfs(urls, heads), urls)
    decreases |urls|
  {
    if urls != [] {
      var init := urls[..|urls| - 1];
      var rest := KeptPdfs(init, heads);
      var u := urls[|urls| - 1];
      KeptPdfsSubsequence(init, heads);
      if ServesPdf(heads(u)) {
        assert (rest + [u])[..|rest|] == rest;
      }
    }
  }

  /** `check_pdf_downloadable(urls)`: request failures only skip the URL at hand. */
  method CheckPdfDownloadable(urls: seq<string>, heads: Remote) returns (downloadable: seq<string>)
    ensures downloadable == KeptPdfs(urls, heads)
  {
    downloadable := [];
    var i := 0;
    while i < |urls|
      invariant 0 <= i <= |urls|
      invariant downloadable == KeptPdfs(urls[..i], heads)
    {
      assert urls[..i + 1][..i] == urls[..i];
      var head := heads(urls[i]);
      if head.Answer? && !FailedStatus(head.response.status) && ContainsCI(head.response.contentType, "pdf") {
        downloadable := downloadable + [urls[i]];
      }
      i := i + 1;
    }
    assert urls[..i] == urls;
  }

  // ---------------------------------------------------------------------------------------
  // download_pdfs
  // ---------------------------------------------------------------------------------------

  const FallbackName := "downloaded_pdf"

  /**
   * The file name for `url`: its last `/` segment, or `downloaded_pdf` when that is empty,
   * with `.pdf` added unless it already ends in `.pdf` (case-sensitively).
   */
  function PdfFilename(url: string): (r: string)
    ensures EndsWith(r, ".pdf")
  {
    var seg := AfterLast(url, '/');
    var stem := if seg != [] then seg else FallbackName;
    if EndsWith(stem, ".pdf") then stem else stem + ".pdf"
  }

  /**
   * The name never holds `/` and always ends in `.pdf`; it starts with the URL's last
   * segment (or the fallback when that is empty), which is kept as it is exactly when it
   * already ends in `.pdf`, and it is at most four characters longer.
   */
  lemma PdfFilenameShape(url: string)
    ensures var name := PdfFilename(url);
      && '/' !in name && EndsWith(name, ".pdf")
      && var seg := AfterLast(url, '/');
      && (seg != [] ==> StartsWith(name, seg) && (name == seg <==> EndsWith(seg, ".pdf")))
      && (seg == [] ==> StartsWith(name, FallbackName))
      && |name| <= |seg| + |FallbackName| + 4
  {
    var seg := AfterLast(url, '/');
    AfterLastAvoids(url, '/');
    var stem := if seg != [] then seg else FallbackName;
    assert '/' !in FallbackName;
    assert '/' !in stem;
    var name := PdfFilename(url);
    if EndsWith(stem, ".pdf") {
      assert name == stem;
    } else {
      assert name == stem + ".pdf";
      assert name[..|stem|] == stem;
      assert forall c :: c in name ==> c in stem || c in ".pdf";
    }
  }

  /** `os.path.join(download_folder, filename)` */
  function PdfTarget(folder: string, url: string): string {
    Join(folder, PdfFilename(url))
  }

  /** The target file is named after the URL, whatever the folder. */
  lemma PdfTargetNamedAfterUrl(folder: string, url: string)
    ensures Basename(PdfTarget(folder, url)) == PdfFilename(url)
  {
    PdfFilenameShape(url);
    JoinBasename(folder, PdfFilename(url));
  }

  /**
   * One URL's effect on the files: an existing target is left alone; otherwise, unless the
   * GET raised or its status is an error, the target is created and the body copied into
   * it (a stream that breaks off leaves the bytes copied so far).
   */
  function StepFiles(files: map<string, seq<byte>>, url: string, folder: string, gets: Remote): map<string, seq<byte>> {
    var path := PdfTarget(folder, url);
    var got := gets(url);
    if path !in files && got.Answer? && !FailedStatus(got.response.status) then files[path := Concat(got.response.body)]
    else files
  }

  /** One URL's GET: issued only when the target does not exist yet. */
  function StepAsked(files: map<string, seq<byte>>, url: string, folder: string): seq<string> {
    if PdfTarget(folder, url) in files then [] else [url]
  }

  /** The files after the whole batch, URL by URL. */
  function FilesAfter(files: map<string, seq<byte>>, urls: seq<string>, folder: string, gets: Remote): map<string, seq<byte>>
    decreases |urls|
  {
    if urls == [] then files else FilesAfter(StepFiles(files, urls[0], folder, gets), urls[1..], folder, gets)
  }

  /** The GETs the whole batch issues, in order. */
  function Requested(files: map<string, seq<byte>>, urls: seq<string>, folder: string, gets: Remote): seq<string>
    decreases |urls|
  {
    if urls == [] then []
    else StepAsked(files, urls[0], folder) + Requested(StepFiles(files, urls[0], folder, gets), urls[1..], folder, gets)
  }

  /** Running two batches one after the other is running their concatenation. */
  lemma {:induction false} FilesAfterConcat(files: map<string, seq<byte>>, a: seq<string>, b: seq<string>, folder: string, gets: Remote)
    ensures FilesAfter(files, a + b, folder, gets) == FilesAfter(FilesAfter(files, a, folder, gets), b, folder, gets)
    ensures Requested(files, a + b, folder, gets)
      == Requested(files, a, folder, gets) + Requested(FilesAfter(files, a, folder, gets), b, folder, gets)
    decreases |a|
  {
    if a == [] {
      assert a + b == b;
    } else {
      assert (a + b)[0] == a[0] && (a + b)[1..] == a[1..] + b;
      var next := StepFiles(files, a[0], folder, gets);
      FilesAfterConcat(next, a[1..], b, folder, gets);
      var asked := StepAsked(files, a[0], folder);
      assert asked + (Requested(next, a[1..], folder, gets) + Requested(FilesAfter(next, a[1..], folder, gets), b, folder, gets))
        == (asked + Requested(next, a[1..], folder, gets)) + Requested(FilesAfter(next, a[1..], folder, gets), b, folder, gets);
    }
  }

  /** The batch from position `i` on is the URL at `i` followed by the batch after it. */
  lemma FilesAfterFrom(files: map<string, seq<byte>>, urls: seq<string>, folder: string, gets: Remote, i: nat)
    requires i < |urls|
    ensures var next := StepFiles(files, urls[i], folder, gets);
      && FilesAfter(files, urls[i..], folder, gets) == FilesAfter(next, urls[i + 1..], folder, gets)
      && Requested(files, urls[i..], folder, gets) == StepAsked(files, urls[i], folder) + Requested(next, urls[i + 1..], folder, gets)
  {
    assert urls[i..][0] == urls[i] && urls[i..][1..] == urls[i + 1..];
  }

  /** A file that exists before the batch is never overwritten or removed. */
  lemma {:induction false} NeverOverwrites(files: map<string, seq<byte>>, urls: seq<string>, folder: string, gets: Remote)
    ensures var last := FilesAfter(files, urls, folder, gets);
      forall p :: p in files ==> p in last && last[p] == files[p]
    decreases |urls|
  {
    if urls != [] {
      var next := StepFiles(files, urls[0], folder, gets);
      assert forall p :: p in files ==> p in next && next[p] == files[p];
      NeverOverwrites(next, urls[1..], folder, gets);
      assert FilesAfter(files, urls, folder, gets) == FilesAfter(next, urls[1..], folder, gets);
    }
  }

  /** Every new file is the target of one of the URLs. */
  lemma {:induction false} OnlyTargetsCreated(files: map<string, seq<byte>>, urls: seq<string>, folder: string, gets: Remote)
    ensures forall p :: p in FilesAfter(files, urls, folder, gets) ==>
      p in files || exists i :: 0 <= i < |urls| && p == PdfTarget(folder, urls[i])
    decreases |urls|
  {
    if urls != [] {
      var next := StepFiles(files, urls[0], folder, gets);
      OnlyTargetsCreated(next, urls[1..], folder, gets);
      forall p | p in FilesAfter(files, urls, folder, gets)
        ensures p in files || exists i :: 0 <= i < |urls| && p == PdfTarget(folder, urls[i])
      {
        if p !in next {
          var i :| 0 <= i < |urls[1..]| && p == PdfTarget(folder, urls[1..][i]);
          assert p == PdfTarget(folder, urls[i + 1]);
        } else if p !in files {
          assert p == PdfTarget(folder, urls[0]);
        }
      }
    }
  }

  /** The batch seen from the URL at `i`: what came before, that URL's step, and the rest. */
  lemma FilesAfterAt(files: map<string, seq<byte>>, urls: seq<string>, folder: string, gets: Remote, i: nat)
    requires i < |urls|
    ensures var before := FilesAfter(files, urls[..i], folder, gets);
      var next := StepFiles(before, urls[i], folder, gets);
      && FilesAfter(files, urls, folder, gets) == FilesAfter(next, urls[i + 1..], folder, gets)
      && Requested(files, urls, folder, gets)
         == Requested(files, urls[..i], folder, gets) + (StepAsked(before, urls[i], folder) + Requested(next, urls[i + 1..], folder, gets))
  {
    var head, tail := urls[..i], urls[i..];
    var before := FilesAfter(files, head, folder, gets);
    assert FilesAfter(files, urls, folder, gets) == FilesAfter(before, tail, folder, gets)
      && Requested(files, urls, folder, gets) == Requested(files, head, folder, gets) + Requested(before, tail, folder, gets)
    by {
      assert head + tail == urls;
      FilesAfterConcat(files, head, tail, folder, gets);
    }
    FilesAfterFrom(before, urls, folder, gets, i);
  }

  /**
   * Whatever happened to the URLs before it, the URL at `i` is requested when its target
   * does not exist yet.
   */
  lemma FreshTargetRequested(files: map<string, seq<byte>>, urls: seq<string>, folder: string, gets: Remote, i: nat)
    requires i < |urls|
    requires PdfTarget(folder, urls[i]) !in FilesAfter(files, urls[..i], folder, gets)
    ensures urls[i] in Requested(files, urls, folder, gets)
  {
    FilesAfterAt(files, urls, folder, gets, i);
    var before := FilesAfter(files, urls[..i], folder, gets);
    assert StepAsked(before, urls[i], folder) == [urls[i]];
  }

  /**
   * Whatever happened to the URLs before it, a good answer for the URL at `i` whose target
   * does not exist yet ends up, whole, in that file, and stays there.
   */
  lemma FreshTargetSaved(files: map<string, seq<byte>>, urls: seq<string>, folder: string, gets: Remote, i: nat)
    requires i < |urls|
    requires PdfTarget(folder, urls[i]) !in FilesAfter(files, urls[..i], folder, gets)
    requires gets(urls[i]).Answer? && !FailedStatus(gets(urls[i]).response.status)
    ensures var last := FilesAfter(files, urls, folder, gets);
      PdfTarget(folder, urls[i]) in last && last[PdfTarget(folder, urls[i])] == Concat(gets(urls[i]).response.body)
  {
    FilesAfterAt(files, urls, folder, gets, i);
    var before := FilesAfter(files, urls[..i], folder, gets);
    var after := StepFiles(before, urls[i], folder, gets);
    var path := PdfTarget(folder, urls[i]);
    assert after == before[path := Concat(gets(urls[i]).response.body)];
    NeverOverwrites(after, urls[i + 1..], folder, gets);
  }

  /** `download_pdfs`, for one URL; `exists` and the writes go through the file system. */
  method DownloadOne(url: string, folder: string, gets: Remote, fs: FileSystem) returns (asked: seq<string>)
    modifies fs
    ensures fs.files == StepFiles(old(fs.files), url, folder, gets)
    ensures asked == StepAsked(old(fs.files), url, folder)
  {
    var path := PdfTarget(folder, url);
    if fs.Exists(path) {
      return [];
    }
    asked := [url];
    var got := gets(url);
    if !got.Answer? || FailedStatus(got.response.status) {
      return;
    }
    SaveBody(fs, path, got.response.body);
  }

  /** `with open(path, 'wb') as f: shutil.copyfileobj(r.raw, f)`: the body copied block by block. */
  method SaveBody(fs: FileSystem, path: string, body: seq<seq<byte>>)
    modifies fs
    ensures fs.files == old(fs.files)[path := Concat(body)]
  {
    fs.Create(path);
    var j := 0;
    while j < |body|
      invariant 0 <= j <= |body|
      invariant fs.files == old(fs.files)[path := Concat(body[..j])]
    {
      assert body[..j + 1][..j] == body[..j];
      fs.Append(path, body[j]);
      j := j + 1;
    }
    assert body[..j] == body;
  }

  /**
   * `download_pdfs(urls, download_folder)`: every URL is handled in turn, a failure on one
   * leaving the others untouched. Gives the GETs issued.
   */
  method DownloadPdfs(urls: seq<string>, folder: string, gets: Remote, fs: FileSystem) returns (requested: seq<string>)
    modifies fs
    ensures fs.files == FilesAfter(old(fs.files), urls, folder, gets)
    ensures requested == Requested(old(fs.files), urls, folder, gets)
  {
    requested := [];
    var i := 0;
    while i < |urls|
      invariant 0 <= i <= |urls|
      invariant FilesAfter(fs.files, urls[i..], folder, gets) == FilesAfter(old(fs.files), urls, folder, gets)
      invariant requested + Requested(fs.files, urls[i..], folder, gets) == Requested(old(fs.files), urls, folder, gets)
    {
      ghost var cur := fs.files;
      FilesAfterFrom(cur, urls, folder, gets, i);
      var asked := DownloadOne(urls[i], folder, gets, fs);
      ghost var rest := Requested(fs.files, urls[i + 1..], folder, gets);
      assert requested + Requested(cur, urls[i..], folder, gets) == requested + asked + rest by {
        assert requested + (asked + rest) == requested + asked + rest;
      }
      requested := requested + asked;
      i := i + 1;
    }
    assert urls[i..] == [];
    assert requested + [] == requested;
  }

  // ---------------------------------------------------------------------------------------
  // retrieve_unique_urls, .txt files
  // ---------------------------------------------------------------------------------------

  /** A directory entry: its name and the text read from it (read errors are not modelled). */
  datatype Entry = Entry(name: string, text: string)

  /** A line break in text mode, where `\r\n` and a lone `\r` both end a line. */
  predicate LineBreak(c: char) {
    c == '\n' || c == '\r'
  }

  /**
   * The text cut at every line break. A `\r\n` gives an extra empty piece, and each piece
   * lacks the line ending Python keeps; both vanish under `strip`.
   */
  function Lines(text: string): (r: seq<string>)
    ensures |r| >= 1
  {
    if text == [] then [[]]
    else
      var rest := Lines(text[1..]);
      if LineBreak(text[0]) then [[]] + rest
      else [[text[0]] + rest[0]] + rest[1..]
  }

  /** The line breaks of `text`, in order. */
  function Breaks(text: string): seq<char> {
    if text == [] then [] else (if LineBreak(text[0]) then [text[0]] else []) + Breaks(text[1..])
  }

  /** The lines glued back together, line `i` followed by break `i`. */
  function JoinLines(lines: seq<string>, breaks: seq<char>): string
    requires |lines| == |breaks| + 1
    decreases |breaks|
  {
    if breaks == [] then lines[0] else lines[0] + [breaks[0]] + JoinLines(lines[1..], breaks[1..])
  }

  /**
   * The lines are the text cut at its line breaks: no line holds a line break, there is
   * one line more than there are line breaks, gluing the lines back together with those
   * breaks gives the text, and a text without line breaks is a single line.
   */
  lemma LinesSplitAtBreaks(text: string)
    ensures forall i :: 0 <= i < |Lines(text)| ==> forall c :: c in Lines(text)[i] ==> !LineBreak(c)
    ensures |Lines(text)| == |Breaks(text)| + 1
    ensures JoinLines(Lines(text), Breaks(text)) == text
    ensures (forall c :: c in text ==> !LineBreak(c)) ==> Lines(text) == [text]
  {
    LinesHaveNoBreaks(text);
    LinesJoinBack(text);
    LinesOfUnbroken(text);
  }

  /** Gluing the lines back together with the text's line breaks gives the text. */
  lemma {:induction false} LinesJoinBack(text: string)
    ensures |Lines(text)| == |Breaks(text)| + 1
    ensures JoinLines(Lines(text), Breaks(text)) == text
    decreases |text|
  {
    if text != [] {
      var tail := text[1..];
      var rest, bs := Lines(tail), Breaks(tail);
      LinesJoinBack(tail);
      if LineBreak(text[0]) {
        assert Lines(text) == [[]] + rest && Breaks(text) == [text[0]] + bs;
        assert ([[]] + rest)[1..] == rest;
        assert JoinLines(Lines(text), Breaks(text)) == [] + [text[0]] + tail;
      } else {
        assert Lines(text) == [[text[0]] + rest[0]] + rest[1..] && Breaks(text) == bs;
        JoinFirstLine([text[0]], rest, bs);
      }
      assert text == [text[0]] + tail;
    }
  }

  /** Putting `x` in front of the first line puts it in front of the joined text. */
  lemma JoinFirstLine(x: string, lines: seq<string>, breaks: seq<char>)
    requires |lines| == |breaks| + 1
    ensures JoinLines([x + lines[0]] + lines[1..], breaks) == x + JoinLines(lines, breaks)
  {
    var m := [x + lines[0]] + lines[1..];
    assert m[1..] == lines[1..];
  }

  lemma {:induction false} LinesHaveNoBreaks(text: string)
    ensures forall i :: 0 <= i < |Lines(text)| ==> forall c :: c in Lines(text)[i] ==> !LineBreak(c)
    decreases |text|
  {
    if text != [] {
      var rest := Lines(text[1..]);
      LinesHaveNoBreaks(text[1..]);
      if !LineBreak(text[0]) {
        forall i | 0 <= i < |Lines(text)| ensures forall c :: c in Lines(text)[i] ==> !LineBreak(c) {
          if i == 0 {
            assert forall c :: c in [text[0]] + rest[0] ==> c == text[0] || c in rest[0];
          } else {
            assert Lines(text)[i] == rest[i];
          }
        }
      }
    }
  }

  lemma {:induction false} LinesOfUnbroken(text: string)
    ensures (forall c :: c in text ==> !LineBreak(c)) ==> Lines(text) == [text]
    decreases |text|
  {
    if text != [] && forall c :: c in text ==> !LineBreak(c) {
      var tail := text[1..];
      assert forall c :: c in tail ==> c in text;
      LinesOfUnbroken(tail);
      assert text == [text[0]] + tail;
    }
  }

  /** The non-empty values `f` takes on `xs`, gathered from the front. */
  function NonEmptyImages(xs: seq<string>, f: string -> string): set<string> {
    if xs == [] then {}
    else
      var u := f(xs[|xs| - 1]);
      NonEmptyImages(xs[..|xs| - 1], f) + (if u != [] then {u} else {})
  }

  /** Taking one more element adds its image when that is non-empty. */
  lemma NonEmptyImagesStep(xs: seq<string>, j: int, f: string -> string)
    requires 0 <= j < |xs|
    ensures var u := f(xs[j]);
      NonEmptyImages(xs[..j + 1], f) == NonEmptyImages(xs[..j], f) + (if u != [] then {u} else {})
  {
    assert xs[..j + 1][..j] == xs[..j];
  }

  /** The stripped, non-empty lines. */
  function LineUrls(lines: seq<string>): set<string> {
    NonEmptyImages(lines, Strip)
  }

  /** What one directory entry contributes: its lines when it is a `.txt` file. */
  function EntryUrls(e: Entry): set<string> {
    if EndsWith(e.name, ".txt") then LineUrls(Lines(e.text)) else {}
  }

  /** The union of `g` over `xs`, gathered from the front. */
  function UnionOver<T>(xs: seq<T>, g: T -> set<string>): set<string> {
    if xs == [] then {}
    else UnionOver(xs[..|xs| - 1], g) + g(xs[|xs| - 1])
  }

  lemma {:induction false} UnionOverMembers<T>(xs: seq<T>, g: T -> set<string>, u: string)
    ensures u in UnionOver(xs, g) <==> exists i :: 0 <= i < |xs| && u in g(xs[i])
    decreases |xs|
  {
    if xs != [] {
      var init := xs[..|xs| - 1];
      UnionOverMembers(init, g, u);
      if u in UnionOver(init, g) {
        var i :| 0 <= i < |init| && u in g(init[i]);
        assert init[i] == xs[i];
      }
      if exists i :: 0 <= i < |xs| && u in g(xs[i]) {
        var i :| 0 <= i < |xs| && u in g(xs[i]);
        if i < |init| {
          assert init[i] == xs[i];
        }
      }
    }
  }

  /** Taking one more element adds what `g` gives for it. */
  lemma UnionOverStep<T>(xs: seq<T>, i: int, g: T -> set<string>)
    requires 0 <= i < |xs|
    ensures UnionOver(xs[..i + 1], g) == UnionOver(xs[..i], g) + g(xs[i])
  {
    assert xs[..i + 1][..i] == xs[..i];
  }

  /** What the entries contribute, in listing order. */
  function EntriesUrls(entries: seq<Entry>): set<string> {
    UnionOver(entries, EntryUrls)
  }

  /** A missing folder gives the empty set. */
  function FolderUrls(folder: Option<seq<Entry>>): set<string> {
    if folder.None? then {} else EntriesUrls(folder.value)
  }

  /** A `.txt` line of the folder contributes its stripped self. */
  predicate FromTxtLine(entries: seq<Entry>, u: string) {
    exists i, k :: 0 <= i < |entries| && EndsWith(entries[i].name, ".txt")
      && 0 <= k < |Lines(entries[i].text)| && u == Strip(Lines(entries[i].text)[k])
  }

  lemma {:induction false} NonEmptyImagesMembers(xs: seq<string>, f: string -> string, u: string)
    ensures u in NonEmptyImages(xs, f) <==> u != [] && exists k :: 0 <= k < |xs| && u == f(xs[k])
    decreases |xs|
  {
    if xs != [] {
      var init := xs[..|xs| - 1];
      NonEmptyImagesMembers(init, f, u);
      if u in NonEmptyImages(init, f) {
        var k :| 0 <= k < |init| && u == f(init[k]);
        assert init[k] == xs[k];
      }
      if u != [] && exists k :: 0 <= k < |xs| && u == f(xs[k]) {
        var k :| 0 <= k < |xs| && u == f(xs[k]);
        if k < |init| {
          assert init[k] == xs[k];
        }
      }
    }
  }

  /** Each non-empty image is gathered. */
  lemma NonEmptyImagesHas(xs: seq<string>, f: string -> string, k: int)
    requires 0 <= k < |xs| && f(xs[k]) != []
    ensures f(xs[k]) in NonEmptyImages(xs, f)
  {
    NonEmptyImagesMembers(xs, f, f(xs[k]));
  }

  /** A URL comes from some lines exactly when it is the non-empty strip of one of them. */
  lemma LineUrlsMembers(lines: seq<string>, u: string)
    ensures u in LineUrls(lines) <==> u != [] && exists k :: 0 <= k < |lines| && u == Strip(lines[k])
  {
    NonEmptyImagesMembers(lines, Strip, u);
  }

  /** What one entry contributes: the stripped non-empty lines of a `.txt` file, nothing otherwise. */
  lemma EntryUrlsMembers(e: Entry, u: string)
    ensures u in EntryUrls(e) <==>
      u != [] && EndsWith(e.name, ".txt") && exists k :: 0 <= k < |Lines(e.text)| && u == Strip(Lines(e.text)[k])
  {
    if EndsWith(e.name, ".txt") {
      assert EntryUrls(e) == LineUrls(Lines(e.text));
      LineUrlsMembers(Lines(e.text), u);
    }
  }

  lemma EntriesUrlsMembers(entries: seq<Entry>, u: string)
    ensures u in EntriesUrls(entries) <==> u != [] && FromTxtLine(entries, u)
  {
    UnionOverMembers(entries, EntryUrls, u);
    if u in EntriesUrls(entries) {
      var i :| 0 <= i < |entries| && u in EntryUrls(entries[i]);
      EntryUrlsMembers(entries[i], u);
      var k :| 0 <= k < |Lines(entries[i].text)| && u == Strip(Lines(entries[i].text)[k]);
      assert FromTxtLine(entries, u);
    }
    if u != [] && FromTxtLine(entries, u) {
      var i, k :| 0 <= i < |entries| && EndsWith(entries[i].name, ".txt")
        && 0 <= k < |Lines(entries[i].text)| && u == Strip(Lines(entries[i].text)[k]);
      NonEmptyImagesHas(Lines(entries[i].text), Strip, k);
    }
  }

  /**
   * A missing folder gives nothing; otherwise the URLs are exactly the stripped non-empty
   * lines of its `.txt` files, each already stripped.
   */
  lemma FolderUrlsExact(folder: Option<seq<Entry>>, u: string)
    ensures folder.None? ==> FolderUrls(folder) == {}
    ensures u in FolderUrls(folder) <==> folder.Some? && u != [] && FromTxtLine(folder.value, u)
    ensures u in FolderUrls(folder) ==> Strip(u) == u
  {
    if folder.Some? {
      EntriesUrlsMembers(folder.value, u);
      if u in FolderUrls(folder) {
        var i, k :| 0 <= i < |folder.value| && EndsWith(folder.value[i].name, ".txt")
          && 0 <= k < |Lines(folder.value[i].text)| && u == Strip(Lines(folder.value[i].text)[k]);
        StripIdempotent(Lines(folder.value[i].text)[k]);
      }
    }
  }

  /** `for line in f`: adds each stripped non-empty line of a `.txt` file's text. */
  method AddLineUrls(unique: set<string>, text: string) returns (added: set<string>)
    ensures added == unique + LineUrls(Lines(text))
  {
    added := unique;
    var lines := Lines(text);
    var j := 0;
    while j < |lines|
      invariant 0 <= j <= |lines|
      invariant added == unique + LineUrls(lines[..j])
    {
      NonEmptyImagesStep(lines, j, Strip);
      var url := Strip(lines[j]);
      if url != [] {
        added := added + {url};
      }
      j := j + 1;
    }
    assert lines[..j] == lines;
  }

  /** `retrieve_unique_urls(data_folder)`, the `.txt` branch; a `None` listing is a missing folder. */
  method RetrieveUniqueUrls(folder: Option<seq<Entry>>) returns (unique: set<string>)
    ensures unique == FolderUrls(folder)
  {
    unique := {};
    if folder.None? {
      return;
    }
    var entries := folder.value;
    var i := 0;
    while i < |entries|
      invariant 0 <= i <= |entries|
      invariant unique == EntriesUrls(entries[..i])
    {
      UnionOverStep(entries, i, EntryUrls);
      var e := entries[i];
      if EndsWith(e.name, ".txt") {
        unique := AddLineUrls(unique, e.text);
      }
      i := i + 1;
    }
    assert entries[..i] == entries;
  }
}
