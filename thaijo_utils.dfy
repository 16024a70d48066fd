/**
 * The ThaiJo crawler's text utilities (crawl/thaijo/utils.py, with textual copies of the
 * first two in crawl/thaijo/crawl_main.py): cutting a Markdown page at a level-2 heading,
 * the generic `[label](url "title")` extractor, the case-insensitive PDF-link extractor,
 * and the flattening of the per-journal link lists.
 */
module ThaijoUtils {
  import opened Wrappers
  import opened Text
  import opened Scan

  // ---------------------------------------------------------------------------------------
  // extract_markdown_from_h2: the pattern `^##\s*<target>\s*$` under re.MULTILINE
  // ---------------------------------------------------------------------------------------

  /** `s[i..j]` is all whitespace. */
  predicate SpacesBetween(s: string, i: nat, j: nat) {
    i <= j <= |s| && forall k :: i <= k < j ==> IsSpace(s[k])
  }

  /** `\s*$` at `q`: some run of whitespace from `q` reaches the end of the text or a newline. */
  predicate LineEndsAfter(s: string, q: nat) {
    exists e: nat | q <= e <= |s| :: SpacesBetween(s, q, e) && (e == |s| || s[e] == '\n')
  }

  /** `^` under re.MULTILINE: the start of the text or just after a newline. */
  predicate LineStart(s: string, p: nat) {
    p == 0 || (p <= |s| && s[p - 1] == '\n')
  }

  /**
   * The heading pattern matches at `p`: a line start, `##`, some whitespace (a newline
   * included, since `\s` covers it), the target text verbatim, then whitespace up to a line end.
   */
  predicate H2At(s: string, target: string, p: nat) {
    && LineStart(s, p) && OccursAt(s, "##", p)
    && exists a: nat | p + 2 <= a <= |s| ::
         SpacesBetween(s, p + 2, a) && OccursAt(s, target, a) && LineEndsAfter(s, a + |target|)
  }

  /** `search_pattern.search(content)`: the leftmost match at or after `p`. */
  function FirstH2(s: string, target: string, p: nat): (r: Option<nat>)
    requires p <= |s|
    ensures r.Some? ==> p <= r.value <= |s| && H2At(s, target, r.value)
    ensures r.Some? ==> forall j :: p <= j < r.value ==> !H2At(s, target, j)
    ensures r.None? ==> forall j :: p <= j <= |s| ==> !H2At(s, target, j)
    decreases |s| - p
  {
    if H2At(s, target, p) then Some(p)
    else if p == |s| then None
    else FirstH2(s, target, p + 1)
  }

  /**
   * `extract_markdown_from_h2(path, target)`, the file given as its content, or None when
   * opening or reading it raises (a missing file, a directory, undecodable UTF-8), which
   * the `except Exception` turns into None: the content from the matched heading on, or None.
   */
  function ExtractMarkdownFromH2(file: Option<string>, target: string): (r: Option<string>)
    ensures r.Some? ==> file.Some? && EndsWith(file.value, r.value) && StartsWith(r.value, "##")
  {
    if file.None? then None
    else
      var m := FirstH2(file.value, target, 0);
      if m.None? then None else Some(file.value[m.value..])
  }

  /**
   * None for a file that cannot be read or a missing heading; otherwise the suffix of the content that
   * starts at the first line matching the heading pattern, and so starts with `##`.
   */
  lemma H2Extraction(file: Option<string>, target: string)
    ensures var r := ExtractMarkdownFromH2(file, target);
      && (file.None? ==> r.None?)
      && (file.Some? ==> (r.Some? <==> exists p: nat :: p <= |file.value| && H2At(file.value, target, p)))
      && (r.Some? ==>
            var c := file.value;
            var start := |c| - |r.value|;
            && 0 <= start && EndsWith(c, r.value) && StartsWith(r.value, "##")
            && H2At(c, target, start)
            && forall j :: 0 <= j < start ==> !H2At(c, target, j))
  {
    var r := ExtractMarkdownFromH2(file, target);
    if r.Some? {
      var c := file.value;
      var p := FirstH2(c, target, 0).value;
      assert r.value == c[p..];
      assert c[p..][..2] == c[p..p + 2];
    }
  }

  // ---------------------------------------------------------------------------------------
  // extract_markdown_links_as_json: `\[\s*(.*?)\s*\]\(\s*(\S+)(?:\s+"(.*?)")?\s*\)`
  // ---------------------------------------------------------------------------------------

  /** One `{label: url}` dictionary of the result. */
  datatype LabelUrl = LabelUrl(caption: string, url: string)

  /** One match of the generic link pattern. */
  type LinkMatch = Hit<LabelUrl>

  /** `\s*\)` at `i`: where the match ends, after the `)`. */
  function CloseAt(s: string, i: nat): (r: Option<nat>)
    requires i <= |s|
    ensures r.Some? ==> i < r.value <= |s| && s[r.value - 1] == ')'
  {
    var g := SkipSpaces(s, i);
    if g < |s| && s[g] == ')' then Some(g + 1) else None
  }

  /**
   * The lazy title body `(.*?)"` followed by `\s*\)`, from `f` on: each `"` in turn is
   * tried as the closing quote; the body cannot run past a newline.
   */
  function TitleClose(s: string, f: nat): (r: Option<nat>)
    requires f <= |s|
    ensures r.Some? ==> f < r.value <= |s|
    decreases |s| - f
  {
    if f == |s| then None
    else if s[f] == '"' && CloseAt(s, f + 1).Some? then CloseAt(s, f + 1)
    else if s[f] == '\n' then None
    else TitleClose(s, f + 1)
  }

  /** After a URL group ending at `d`: the optional `\s+"title"` is tried first, then `\s*\)`. */
  function TailAt(s: string, d: nat): (r: Option<nat>)
    requires d <= |s|
    ensures r.Some? ==> d < r.value <= |s|
  {
    var e := SkipSpaces(s, d);
    var titled := if d < e < |s| && s[e] == '"' then TitleClose(s, e + 1) else None;
    if titled.Some? then titled else CloseAt(s, d)
  }

  /**
   * `\(\s*(\S+)` and the rest after the `(` at `u - 1`: the URL is the whole non-blank run
   * when the tail matches after it; otherwise the greedy `\S+` gives characters back, and a
   * shorter URL can only be followed by a `)` (the last one inside the run). Gives the URL's
   * start and end and the match's end.
   */
  function UrlPart(s: string, u: nat): (r: Option<(nat, nat, nat)>)
    requires u <= |s|
    ensures r.Some? ==> u <= r.value.0 < r.value.1 < r.value.2 <= |s|
    ensures r.Some? ==> forall k :: r.value.0 <= k < r.value.1 ==> !IsSpace(s[k])
  {
    var c := SkipSpaces(s, u);
    var d := NonSpaceRunEnd(s, c);
    if d == c then None
    else
      var tail := TailAt(s, d);
      if tail.Some? then Some((c, d, tail.value))
      else
        var e := LastEndOf(s, ")", c + 1, d);
        if e.None? then None else Some((c, e.value - 1, e.value))
  }

  /** `\]\(` at `g`, then the URL part. */
  function BracketAt(s: string, g: nat): (r: Option<(nat, nat, nat)>)
    requires g <= |s|
    ensures r.Some? ==> g < r.value.0 < r.value.1 < r.value.2 <= |s|
    ensures r.Some? ==> forall k :: r.value.0 <= k < r.value.1 ==> !IsSpace(s[k])
  {
    if g + 1 < |s| && s[g] == ']' && s[g + 1] == '(' then UrlPart(s, g + 2) else None
  }

  /** The label group ending at `l`: `\s*\]\(` must follow, then the URL part. */
  function LabelEndAt(s: string, l: nat): (r: Option<(nat, nat, nat)>)
    requires l <= |s|
    ensures r.Some? ==> l < r.value.0 < r.value.1 < r.value.2 <= |s|
    ensures r.Some? ==> forall k :: r.value.0 <= k < r.value.1 ==> !IsSpace(s[k])
  {
    BracketAt(s, SkipSpaces(s, l))
  }

  /** `LabelEndAt` at every position of `s`. */
  function LabelEnds(s: string): (ends: seq<Option<(nat, nat, nat)>>)
    ensures |ends| == |s| + 1
    ensures forall k :: 0 <= k < |ends| ==> ends[k] == LabelEndAt(s, k)
  {
    seq(|s| + 1, k requires 0 <= k <= |s| => LabelEndAt(s, k))
  }

  /**
   * The lazy label `(.*?)` from `l` on, over the table `ends` of `LabelEndAt`: the shortest
   * label for which the rest matches; it cannot run past a newline. Gives the label's end
   * and the URL part.
   */
  function LabelSearch(s: string, ends: seq<Option<(nat, nat, nat)>>, l: nat): (r: Option<(nat, (nat, nat, nat))>)
    requires |ends| == |s| + 1 && l <= |s|
    ensures r.Some? ==> l <= r.value.0 <= |s| && ends[r.value.0] == Some(r.value.1)
    ensures r.Some? ==> forall k :: l <= k < r.value.0 ==> s[k] != '\n' && ends[k].None?
    decreases |s| - l
  {
    if ends[l].Some? then Some((l, ends[l].value))
    else if l == |s| || s[l] == '\n' then None
    else LabelSearch(s, ends, l + 1)
  }

  /** The match of the generic link pattern starting at `p`, if any. */
  function LinkMatchAt(s: string, p: nat): (r: Option<LinkMatch>)
    requires p <= |s|
    ensures r.Some? ==> r.value.start == p && p < r.value.end <= |s|
  {
    if p < |s| && s[p] == '[' then
      var from := SkipSpaces(s, p + 1);
      var found := LabelSearch(s, LabelEnds(s), from);
      if found.None? then None
      else
        var (l, parts) := found.value;
        Some(Hit(p, LabelUrl(s[from..l], s[parts.0..parts.1]), parts.2))
    else None
  }

  /** A label ending in whitespace cannot be the one the lazy search stops at. */
  lemma LabelEndsSolid(s: string, l: nat)
    requires 0 < l <= |s| && LabelEndAt(s, l).Some? && LabelEndAt(s, l - 1).None?
    ensures !IsSpace(s[l - 1])
  {
  }

  /** A one-line slice with no whitespace at either end is stripped. */
  lemma SolidSlice(s: string, i: nat, j: nat)
    requires i <= j <= |s|
    requires forall k :: i <= k < j ==> s[k] != '\n'
    requires i < j ==> !IsSpace(s[i]) && !IsSpace(s[j - 1])
    ensures Strip(s[i..j]) == s[i..j] && '\n' !in s[i..j]
  {
    var t := s[i..j];
    if t != [] {
      assert t[0] == s[i] && t[|t| - 1] == s[j - 1];
    }
    StripSolid(t);
    forall k | 0 <= k < |t| ensures t[k] != '\n' {
      assert t[k] == s[i + k];
    }
  }

  /** A non-empty slice of non-blank characters. */
  lemma BlanklessSlice(s: string, i: nat, j: nat)
    requires i < j <= |s|
    requires forall k :: i <= k < j ==> !IsSpace(s[k])
    ensures s[i..j] != [] && NoSpace(s[i..j])
  {
    var t := s[i..j];
    assert forall k :: 0 <= k < |t| ==> t[k] == s[i + k];
  }

  /** What every `{label: url}` pair has: a stripped one-line label and a non-empty URL without blanks. */
  predicate SoundPair(m: LabelUrl) {
    && Strip(m.caption) == m.caption && '\n' !in m.caption
    && m.url != [] && NoSpace(m.url)
  }

  /** A match's caption is stripped and has no newline; its URL is non-empty and holds no whitespace. */
  lemma LinkMatchSound(s: string, p: nat)
    requires p <= |s| && LinkMatchAt(s, p).Some?
    ensures SoundPair(LinkMatchAt(s, p).value.groups)
  {
    var from := SkipSpaces(s, p + 1);
    var ends := LabelEnds(s);
    var (l, parts) := LabelSearch(s, ends, from).value;
    assert ends[l] == Some(parts);
    if from < l {
      assert ends[l - 1].None?;
      LabelEndsSolid(s, l);
    }
    SolidSlice(s, from, l);
    BlanklessSlice(s, parts.0, parts.1);
    assert LinkMatchAt(s, p).value.groups == LabelUrl(s[from..l], s[parts.0..parts.1]);
  }

  /** The generic pattern's match at every position of `s`. */
  function LinkTable(s: string): (tab: seq<Option<LinkMatch>>)
    ensures |tab| == |s| + 1 && IsMatchTable(tab)
    ensures forall k :: 0 <= k < |tab| ==> tab[k] == LinkMatchAt(s, k)
  {
    seq(|s| + 1, k requires 0 <= k <= |s| => LinkMatchAt(s, k))
  }

  /** The dictionaries built over the matches, one per match, titles dropped. */
  function Pairs(ms: seq<LinkMatch>): (r: seq<LabelUrl>)
    ensures |r| == |ms|
    ensures forall i :: 0 <= i < |r| ==> r[i] == ms[i].groups
  {
    if ms == [] then [] else [ms[0].groups] + Pairs(ms[1..])
  }

  /** All matches of the generic pattern, left to right. */
  function LinkMatches(markdown: string): seq<LinkMatch> {
    FindAll(LinkTable(markdown), 0)
  }

  /** `extract_markdown_links_as_json(markdown_text)` */
  function ExtractMarkdownLinksAsJson(markdown: string): (r: seq<LabelUrl>)
    ensures |r| == |LinkMatches(markdown)|
  {
    Pairs(LinkMatches(markdown))
  }

  /**
   * One pair per match, in the order of the matches, which do not overlap and leave no
   * match behind; each pair's label is stripped and on one line, its URL non-empty and
   * without whitespace.
   */
  lemma ExtractedPairsAreSound(markdown: string)
    ensures var ms := LinkMatches(markdown);
      var r := ExtractMarkdownLinksAsJson(markdown);
      && |r| == |ms|
      && (forall i :: 0 <= i < |r| ==> r[i] == ms[i].groups && SoundPair(r[i]))
      && InOrder(ms) && NoMatchBetween(LinkTable(markdown), ms)
      && NoMatchIn(LinkTable(markdown), 0, FirstStart(|markdown|, ms))
      && NoMatchIn(LinkTable(markdown), LastEnd(ms, 0), |markdown|)
  {
    var tab := LinkTable(markdown);
    var ms := LinkMatches(markdown);
    FindAllMatches(tab, 0);
    FindAllIsLeftmost(tab, 0);
    OrderedHits(ms);
    forall i | 0 <= i < |ms|
      ensures SoundPair(ms[i].groups)
    {
      assert LinkMatchAt(markdown, ms[i].start) == tab[ms[i].start] == Some(ms[i]);
      LinkMatchSound(markdown, ms[i].start);
    }
  }

  // ---------------------------------------------------------------------------------------
  // extract_pdf_links_from_markdown: `\[([^\]]*pdf[^\]]*)\]\((https?://[^\)]+)\)`, IGNORECASE
  // ---------------------------------------------------------------------------------------

  /** The argument as Python sees it: a string or anything else. */
  datatype Input = Str(text: string) | NotStr

  /** `https?://` at `u`, ignoring case: where the scheme ends. */
  function SchemeEnd(s: string, u: nat): (r: Option<nat>)
    requires u <= |s|
    ensures r.Some? ==> r.value <= |s| && OccursAtCI(s, "http", u)
    ensures r.Some? ==>
      || (r.value == u + 7 && OccursAt(s, "://", u + 4))
      || (r.value == u + 8 && MatchesLetterCI(s[u + 4], 's') && OccursAt(s, "://", u + 5))
  {
    if !OccursAtCI(s, "http", u) then None
    else if u + 4 < |s| && MatchesLetterCI(s[u + 4], 's') && OccursAt(s, "://", u + 5) then Some(u + 8)
    else if OccursAt(s, "://", u + 4) then Some(u + 7)
    else None
  }

  /** The URL shape the pattern guarantees: `http` in any case, an optional `s`, `://`, then no `)`. */
  predicate HttpUrlCI(url: string) {
    && OccursAtCI(url, "http", 0)
    && (OccursAt(url, "://", 4) || (|url| > 4 && MatchesLetterCI(url[4], 's') && OccursAt(url, "://", 5)))
    && ')' !in url && |url| > 7
  }

  /**
   * The match at `p`: the label is everything up to the first `]` and must contain `pdf`
   * in any case; `(` follows; the URL is the scheme and at least one more character up to
   * the first `)`, which closes the match.
   */
  function PdfMatchAt(s: string, p: nat): (r: Option<Hit<LabelUrl>>)
    requires p <= |s|
    ensures r.Some? ==> r.value.start == p && p < r.value.end <= |s|
  {
    if p < |s| && s[p] == '[' then
      var close := FindChar(s, ']', p + 1);
      if close.None? || !ContainsCI(s[p + 1..close.value], "pdf") then None
      else
        var q := close.value + 1;
        if q >= |s| || s[q] != '(' then None
        else
          var v := SchemeEnd(s, q + 1);
          if v.None? then None
          else
            var paren := FindChar(s, ')', v.value);
            if paren.None? || paren.value == v.value then None
            else Some(Hit(p, LabelUrl(s[p + 1..close.value], s[q + 1..paren.value]), paren.value + 1))
    else None
  }

  /** What every extracted PDF link has: `pdf` in its label in some case, no `]` there, and a URL of the right shape. */
  predicate PdfSound(m: LabelUrl) {
    ContainsCI(m.caption, "pdf") && ']' !in m.caption && HttpUrlCI(m.url)
  }

  /** The scheme `https?://` found at `u` holds no `)`. */
  lemma SchemeAvoidsParen(s: string, u: nat)
    requires u <= |s| && SchemeEnd(s, u).Some?
    ensures forall k :: u <= k < SchemeEnd(s, u).value ==> s[k] != ')'
  {
    var v := SchemeEnd(s, u).value;
    forall k | u <= k < v ensures s[k] != ')' {
      if k < u + 4 {
        assert MatchesLetterCI(s[u + (k - u)], "http"[k - u]);
      } else if k == u + 4 && v == u + 8 {
        assert MatchesLetterCI(s[k], 's');
      } else {
        assert s[v - 3..v] == "://";
        assert s[k] == s[v - 3..v][k - (v - 3)];
      }
    }
  }

  /** A URL group starting with a scheme found at `u` and free of `)` has the shape `HttpUrlCI` describes. */
  lemma SchemeStartsUrl(s: string, u: nat, e: nat)
    requires u <= |s| && SchemeEnd(s, u).Some? && SchemeEnd(s, u).value < e <= |s|
    requires forall k :: u <= k < e ==> s[k] != ')'
    ensures HttpUrlCI(s[u..e])
  {
    var url := s[u..e];
    assert forall k :: 0 <= k < |url| ==> url[k] == s[u + k];
    assert url[4..7] == s[u + 4..u + 7];
    if SchemeEnd(s, u).value == u + 8 {
      assert url[5..8] == s[u + 5..u + 8];
    }
  }

  /** A match's label contains `pdf` in some case and no `]`; its URL has the scheme and no `)`. */
  lemma PdfMatchSound(s: string, p: nat)
    requires p <= |s| && PdfMatchAt(s, p).Some?
    ensures PdfSound(PdfMatchAt(s, p).value.groups)
  {
    var close := FindChar(s, ']', p + 1).value;
    SliceAvoids(s, ']', p + 1, close);
    var q := close + 1;
    var v := SchemeEnd(s, q + 1).value;
    var paren := FindChar(s, ')', v).value;
    SchemeAvoidsParen(s, q + 1);
    SchemeStartsUrl(s, q + 1, paren);
  }

  /** The PDF pattern's match at every position of `s`. */
  function PdfTable(s: string): (tab: seq<Option<Hit<LabelUrl>>>)
    ensures |tab| == |s| + 1 && IsMatchTable(tab)
    ensures forall k :: 0 <= k < |tab| ==> tab[k] == PdfMatchAt(s, k)
  {
    seq(|s| + 1, k requires 0 <= k <= |s| => PdfMatchAt(s, k))
  }

  /** The URL group of each match, in order. */
  function Urls(ms: seq<Hit<LabelUrl>>): (r: seq<string>)
    ensures |r| == |ms|
    ensures forall i :: 0 <= i < |r| ==> r[i] == ms[i].groups.url
  {
    if ms == [] then [] else [ms[0].groups.url] + Urls(ms[1..])
  }

  /** All matches of the PDF pattern, left to right. */
  function PdfMatches(markdown: string): seq<Hit<LabelUrl>> {
    FindAll(PdfTable(markdown), 0)
  }

  /** `extract_pdf_links_from_markdown(markdown_text)`: ValueError for a non-string. */
  function ExtractPdfLinksFromMarkdown(input: Input): (r: Result<seq<string>, string>)
    ensures r.Err? <==> input.NotStr?
  {
    if input.NotStr? then Err("Input must be a string")
    else Ok(Urls(PdfMatches(input.text)))
  }

  /**
   * A non-string is refused; for a string, the URLs come one per match, in match order,
   * each from a link whose label holds `pdf` in any case and no `]`, and each starting
   * with `http://` or `https://` in any case and holding no `)`.
   */
  lemma ExtractedPdfUrlsAreSound(input: Input)
    ensures var r := ExtractPdfLinksFromMarkdown(input);
      && (input.NotStr? <==> r.Err?)
      && (input.Str? ==>
            var ms := PdfMatches(input.text);
            && |r.value| == |ms| && InOrder(ms)
            && forall i :: 0 <= i < |ms| ==> r.value[i] == ms[i].groups.url && PdfSound(ms[i].groups))
  {
    if input.Str? {
      var s := input.text;
      var tab := PdfTable(s);
      var ms := PdfMatches(s);
      FindAllMatches(tab, 0);
      FindAllIsLeftmost(tab, 0);
      OrderedHits(ms);
      forall i | 0 <= i < |ms| ensures PdfSound(ms[i].groups) {
        assert PdfMatchAt(s, ms[i].start) == tab[ms[i].start] == Some(ms[i]);
        PdfMatchSound(s, ms[i].start);
      }
    }
  }

  // ---------------------------------------------------------------------------------------
  // get_pdf_links_from_json
  // ---------------------------------------------------------------------------------------

  /** The JSON file's values in order, each item's `links` list or None when it has none. */
  type LinkItems = seq<Option<seq<string>>>

  /** Each item's links in item order, an item without `links` counting as an empty list. */
  function Flatten(items: LinkItems): seq<string> {
    if items == [] then [] else Flatten(items[..|items| - 1]) + items[|items| - 1].GetOr([])
  }

  /** Flattening distributes over concatenation: item order is link order. */
  lemma {:induction false} FlattenConcat(a: LinkItems, b: LinkItems)
    ensures Flatten(a + b) == Flatten(a) + Flatten(b)
    decreases |b|
  {
    if b == [] {
      assert a + b == a;
    } else {
      var c := a + b;
      assert c[..|c| - 1] == a + b[..|b| - 1];
      FlattenConcat(a, b[..|b| - 1]);
    }
  }

  /** A link is in the flat list exactly when some item lists it; items without `links` add nothing. */
  lemma {:induction false} FlattenMembers(items: LinkItems, u: string)
    ensures u in Flatten(items) <==> exists i :: 0 <= i < |items| && items[i].Some? && u in items[i].value
    decreases |items|
  {
    if items != [] {
      var front := items[..|items| - 1];
      FlattenMembers(front, u);
      assert forall i :: 0 <= i < |front| ==> front[i] == items[i];
    }
  }

  /** An item without a `links` key contributes nothing, wherever it stands. */
  lemma ItemWithoutLinksAddsNothing(a: LinkItems, b: LinkItems)
    ensures Flatten(a + [None] + b) == Flatten(a + b)
  {
    FlattenConcat(a + [None], b);
    FlattenConcat(a, [None]);
    FlattenConcat(a, b);
    assert Flatten([None]) == Flatten([]) + [];
  }

  /** `get_pdf_links_from_json(path)`, the file given as its parsed values: the `extend` loop. */
  method GetPdfLinksFromJson(items: LinkItems) returns (allLinks: seq<string>)
    ensures allLinks == Flatten(items)
  {
    allLinks := [];
    var i := 0;
    while i < |items|
      invariant 0 <= i <= |items|
      invariant allLinks == Flatten(items[..i])
    {
      assert items[..i + 1][..i] == items[..i];
      allLinks := allLinks + items[i].GetOr([]);
      i := i + 1;
    }
    assert items[..i] == items;
  }
}
