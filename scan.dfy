/**
 * Forward and backward searches over a string, the building blocks of the hand-written
 * matchers that stand for the crawlers' regular expressions.
 */
module Scan {
  import opened Wrappers
  import opened Text

  /** The first index at or after `i` that is not whitespace (or `|s|`): the end of a greedy `\s*`. */
  function SkipSpaces(s: string, i: nat): (k: nat)
    requires i <= |s|
    ensures i <= k <= |s|
    ensures forall j :: i <= j < k ==> IsSpace(s[j])
    ensures k < |s| ==> !IsSpace(s[k])
    decreases |s| - i
  {
    if i < |s| && IsSpace(s[i]) then SkipSpaces(s, i + 1) else i
  }

  /** The first index at or after `i` holding `c`. */
  function FindChar(s: string, c: char, i: nat): (r: Option<nat>)
    requires i <= |s|
    ensures r.Some? ==> i <= r.value < |s| && s[r.value] == c
    ensures r.Some? ==> forall j :: i <= j < r.value ==> s[j] != c
    ensures r.None? ==> forall j :: i <= j < |s| ==> s[j] != c
    decreases |s| - i
  {
    if i == |s| then None
    else if s[i] == c then Some(i)
    else FindChar(s, c, i + 1)
  }

  /** The first index at or after `i` holding whitespace or `stop` (or `|s|`): the end of a greedy `[^\s<stop>]*`. */
  function SolidRunEnd(s: string, stop: char, i: nat): (k: nat)
    requires i <= |s|
    ensures i <= k <= |s|
    ensures forall j :: i <= j < k ==> !IsSpace(s[j]) && s[j] != stop
    ensures k < |s| ==> IsSpace(s[k]) || s[k] == stop
    decreases |s| - i
  {
    if i < |s| && !IsSpace(s[i]) && s[i] != stop then SolidRunEnd(s, stop, i + 1) else i
  }

  /** The first index at or after `i` holding whitespace (or `|s|`): the end of a greedy `\S*`. */
  function NonSpaceRunEnd(s: string, i: nat): (k: nat)
    requires i <= |s|
    ensures i <= k <= |s|
    ensures forall j :: i <= j < k ==> !IsSpace(s[j])
    ensures k < |s| ==> IsSpace(s[k])
    decreases |s| - i
  {
    if i < |s| && !IsSpace(s[i]) then NonSpaceRunEnd(s, i + 1) else i
  }

  /** An occurrence of `sub` ends at `e`. */
  predicate EndsAt(s: string, sub: string, e: nat) {
    |sub| <= e && OccursAt(s, sub, e - |sub|)
  }

  /** The largest `e` in `[lo + |sub|, hi]` at which an occurrence of `sub` ends. */
  function LastEndOf(s: string, sub: string, lo: nat, hi: nat): (r: Option<nat>)
    requires lo <= hi <= |s|
    ensures r.Some? ==> lo + |sub| <= r.value <= hi && EndsAt(s, sub, r.value)
    ensures r.Some? ==> forall e :: r.value < e <= hi ==> !EndsAt(s, sub, e)
    ensures r.None? ==> forall e :: lo + |sub| <= e <= hi ==> !EndsAt(s, sub, e)
    decreases hi
  {
    if hi < lo + |sub| then None
    else if EndsAt(s, sub, hi) then Some(hi)
    else if hi == lo then None
    else LastEndOf(s, sub, lo, hi - 1)
  }

  /** A slice of characters none of which is `c` does not contain `c`. */
  lemma SliceAvoids(s: string, c: char, i: nat, j: nat)
    requires i <= j <= |s|
    requires forall k :: i <= k < j ==> s[k] != c
    ensures c !in s[i..j]
  {
    assert forall k :: 0 <= k < j - i ==> s[i..j][k] == s[i + k];
  }

  /** One match of a pattern: where it starts, its groups, and where it ends. */
  datatype Hit<T> = Hit(start: nat, groups: T, end: nat)

  /**
   * `tab[k]` is the match of a pattern starting at `k` in a text of length `|tab| - 1`:
   * it starts at `k` and ends, non-empty, within the text.
   */
  predicate IsMatchTable<T>(tab: seq<Option<Hit<T>>>) {
    && |tab| > 0
    && forall k :: 0 <= k < |tab| && tab[k].Some? ==> tab[k].value.start == k && k < tab[k].value.end < |tab|
  }

  /** `re.findall` from position `p`: try each start in turn, resuming after every match. */
  function FindAll<T>(tab: seq<Option<Hit<T>>>, p: nat): (r: seq<Hit<T>>)
    requires IsMatchTable(tab) && p < |tab|
    ensures forall i :: 0 <= i < |r| ==> p <= r[i].start < r[i].end < |tab|
    decreases |tab| - p
  {
    if p == |tab| - 1 then []
    else if tab[p].Some? then [tab[p].value] + FindAll(tab, tab[p].value.end)
    else FindAll(tab, p + 1)
  }

  /** Every element of `r` is the match at its own start. */
  ghost predicate AllFromTable<T>(tab: seq<Option<Hit<T>>>, r: seq<Hit<T>>) {
    forall i :: 0 <= i < |r| ==> r[i].start < |tab| && tab[r[i].start] == Some(r[i])
  }

  /** Every element of the scan is the match at its own start. */
  lemma {:induction false} FindAllMatches<T>(tab: seq<Option<Hit<T>>>, p: nat)
    requires IsMatchTable(tab) && p < |tab|
    ensures AllFromTable(tab, FindAll(tab, p))
    decreases |tab| - p
  {
    if p < |tab| - 1 {
      if tab[p].Some? {
        FindAllMatches(tab, tab[p].value.end);
        var rest := FindAll(tab, tab[p].value.end);
        var r := [tab[p].value] + rest;
        assert r == FindAll(tab, p);
        assert forall i :: 0 < i < |r| ==> r[i] == rest[i - 1];
      } else {
        FindAllMatches(tab, p + 1);
      }
    }
  }

  /** No position in `[lo, hi)` starts a match. */
  predicate NoMatchIn<T>(tab: seq<Option<Hit<T>>>, lo: nat, hi: nat) {
    forall k :: lo <= k < hi && k < |tab| ==> tab[k].None?
  }

  /** No position between two consecutive matches of `r` starts a match. */
  predicate NoMatchBetween<T>(tab: seq<Option<Hit<T>>>, r: seq<Hit<T>>) {
    forall i :: 0 < i < |r| ==> NoMatchIn(tab, r[i - 1].end, r[i].start)
  }

  /** Where the first match starts, or `n` when there is none. */
  function FirstStart<T>(n: nat, r: seq<Hit<T>>): nat {
    if r == [] then n else r[0].start
  }

  /** Where the last match ends, or `p` when there is none. */
  function LastEnd<T>(r: seq<Hit<T>>, p: nat): nat {
    if r == [] then p else r[|r| - 1].end
  }

  /**
   * The scan is leftmost and non-overlapping: each match starts where the previous one
   * ended or later, and no position skipped over starts a match.
   */
  lemma FindAllIsLeftmost<T>(tab: seq<Option<Hit<T>>>, p: nat)
    requires IsMatchTable(tab) && p < |tab|
    ensures var r := FindAll(tab, p);
      && NoMatchIn(tab, p, FirstStart(|tab| - 1, r))
      && (forall i :: 0 < i < |r| ==> r[i - 1].end <= r[i].start)
      && NoMatchBetween(tab, r)
      && NoMatchIn(tab, LastEnd(r, p), |tab| - 1)
  {
    FindAllSkipsNothing(tab, p);
    FindAllGaps(tab, p);
  }

  /** Nothing before the scan's first match, nor after its last, starts a match. */
  lemma FindAllSkipsNothing<T>(tab: seq<Option<Hit<T>>>, p: nat)
    requires IsMatchTable(tab) && p < |tab|
    ensures var r := FindAll(tab, p);
      && NoMatchIn(tab, p, FirstStart(|tab| - 1, r))
      && NoMatchIn(tab, LastEnd(r, p), |tab| - 1)
  {
    NothingBeforeFirst(tab, p);
    NothingAfterLast(tab, p);
  }

  lemma {:induction false} NothingBeforeFirst<T>(tab: seq<Option<Hit<T>>>, p: nat)
    requires IsMatchTable(tab) && p < |tab|
    ensures NoMatchIn(tab, p, FirstStart(|tab| - 1, FindAll(tab, p)))
    decreases |tab| - p
  {
    if p < |tab| - 1 && tab[p].None? {
      NothingBeforeFirst(tab, p + 1);
      assert FindAll(tab, p) == FindAll(tab, p + 1);
    }
  }

  lemma {:induction false} NothingAfterLast<T>(tab: seq<Option<Hit<T>>>, p: nat)
    requires IsMatchTable(tab) && p < |tab|
    ensures NoMatchIn(tab, LastEnd(FindAll(tab, p), p), |tab| - 1)
    decreases |tab| - p
  {
    if p < |tab| - 1 {
      if tab[p].Some? {
        var e := tab[p].value.end;
        NothingAfterLast(tab, e);
        var rest := FindAll(tab, e);
        assert FindAll(tab, p) == [tab[p].value] + rest;
        assert LastEnd([tab[p].value] + rest, p) == LastEnd(rest, e);
      } else {
        NothingAfterLast(tab, p + 1);
        assert FindAll(tab, p) == FindAll(tab, p + 1);
      }
    }
  }

  /** Consecutive matches of the scan do not overlap, and nothing between them starts a match. */
  lemma {:induction false} FindAllGaps<T>(tab: seq<Option<Hit<T>>>, p: nat)
    requires IsMatchTable(tab) && p < |tab|
    ensures var r := FindAll(tab, p);
      && (forall i :: 0 < i < |r| ==> r[i - 1].end <= r[i].start)
      && NoMatchBetween(tab, r)
    decreases |tab| - p
  {
    if p < |tab| - 1 {
      if tab[p].Some? {
        var e := tab[p].value.end;
        FindAllGaps(tab, e);
        FindAllSkipsNothing(tab, e);
        var rest := FindAll(tab, e);
        var r := [tab[p].value] + rest;
        assert r == FindAll(tab, p);
        assert forall i :: 0 < i < |r| ==> r[i] == rest[i - 1];
      } else {
        FindAllGaps(tab, p + 1);
      }
    }
  }

  /** Matches in order of position, none overlapping another. */
  predicate InOrder<T>(ms: seq<Hit<T>>) {
    forall i, j :: 0 <= i < j < |ms| ==> ms[i].end <= ms[j].start
  }

  /** Adjacent order of the scan's matches extends to all pairs. */
  lemma {:induction false} OrderedHits<T>(ms: seq<Hit<T>>)
    requires forall i :: 0 <= i < |ms| ==> ms[i].start < ms[i].end
    requires forall i :: 0 < i < |ms| ==> ms[i - 1].end <= ms[i].start
    ensures InOrder(ms)
    decreases |ms|
  {
    if |ms| > 1 {
      var init := ms[..|ms| - 1];
      assert forall i :: 0 <= i < |init| ==> init[i] == ms[i];
      OrderedHits(init);
      forall i, j | 0 <= i < j < |ms|
        ensures ms[i].end <= ms[j].start
      {
        if j < |ms| - 1 {
          assert init[i] == ms[i] && init[j] == ms[j];
        } else if i < j - 1 {
          assert init[i] == ms[i] && init[j - 1] == ms[j - 1];
        }
      }
    }
  }
}
