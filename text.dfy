/**
 * String helpers with Python's semantics: `str.isspace` / regex `\s`, `str.strip`,
 * `in`, `startswith`, `endswith`, `split`, `rsplit`, `str(int)`, and the case-insensitive
 * character comparison of `re.IGNORECASE` for the few letters the patterns use.
 */
module Text {
  import opened Wrappers

  /** Python's whitespace set (`str.isspace`, and `\s` in a str pattern). */
  predicate IsSpace(c: char) {
    || c == ' '
    || ('\t' <= c <= '\r')
    || ('\U{1C}' <= c <= '\U{1F}')
    || c == '\U{85}' || c == '\U{A0}' || c == '\U{1680}'
    || ('\U{2000}' <= c <= '\U{200A}')
    || c == '\U{2028}' || c == '\U{2029}' || c == '\U{202F}' || c == '\U{205F}' || c == '\U{3000}'
  }

  predicate NoSpace(s: string) {
    forall i :: 0 <= i < |s| ==> !IsSpace(s[i])
  }

  predicate StartsWith(s: string, prefix: string) {
    |prefix| <= |s| && s[..|prefix|] == prefix
  }

  predicate EndsWith(s: string, suffix: string) {
    |suffix| <= |s| && s[|s| - |suffix|..] == suffix
  }

  predicate OccursAt(s: string, sub: string, i: nat) {
    i + |sub| <= |s| && s[i..i + |sub|] == sub
  }

  /** Python's `sub in s`. */
  predicate Contains(s: string, sub: string) {
    exists i: nat | i <= |s| :: OccursAt(s, sub, i)
  }

  /** `s.lstrip()` */
  function TrimStart(s: string): (r: string)
    ensures |r| <= |s| && r == s[|s| - |r|..]
    ensures r == [] || !IsSpace(r[0])
    ensures forall i :: 0 <= i < |s| - |r| ==> IsSpace(s[i])
  {
    if |s| > 0 && IsSpace(s[0]) then
      var r := TrimStart(s[1..]);
      assert forall i :: 1 <= i < |s| - |r| ==> s[i] == s[1..][i - 1];
      r
    else s
  }

  /** `s.rstrip()` */
  function TrimEnd(s: string): (r: string)
    ensures |r| <= |s| && r == s[..|r|]
    ensures r == [] || !IsSpace(r[|r| - 1])
    ensures forall i :: |r| <= i < |s| ==> IsSpace(s[i])
  {
    if |s| > 0 && IsSpace(s[|s| - 1]) then
      var r := TrimEnd(s[..|s| - 1]);
      assert forall i :: |r| <= i < |s| - 1 ==> s[i] == s[..|s| - 1][i];
      r
    else s
  }

  /** `s.strip()`: the longest infix with no whitespace at either end. */
  function Strip(s: string): string {
    TrimEnd(TrimStart(s))
  }

  /** A string with no whitespace at either end is already stripped. */
  lemma StripSolid(t: string)
    requires t == [] || (!IsSpace(t[0]) && !IsSpace(t[|t| - 1]))
    ensures Strip(t) == t
  {
    if t != [] {
      assert TrimStart(t) == t;
      assert TrimEnd(t) == t;
    } else {
      assert Strip(t) == [];
    }
  }

  /** Stripping removes only whitespace at the ends and leaves a trimmed infix. */
  lemma StripIsTrimmedInfix(s: string)
    ensures var r := Strip(s);
      && (r == [] || (!IsSpace(r[0]) && !IsSpace(r[|r| - 1])))
      && OccursAt(s, r, |s| - |TrimStart(s)|)
  {
    var t := TrimStart(s);
    var r := TrimEnd(t);
    var k := |s| - |t|;
    assert OccursAt(s, r, k) by {
      assert s[k..k + |r|] == t[..|r|];
    }
    assert r == [] || (!IsSpace(r[0]) && !IsSpace(r[|r| - 1])) by {
      if r != [] {
        assert r[0] == t[0];
      }
    }
  }

  /** The pieces of a name built as `a + b + c + d` can be sliced back out of it. */
  lemma FourPieces(a: string, b: string, c: string, d: string)
    ensures var f := a + b + c + d;
      && f[..|a|] == a && f[|a|..|f| - |d|] == b + c && f[|f| - |d|..] == d
  {
    var f := a + b + c + d;
    assert f == a + (b + c) + d;
  }

  lemma OccursInSuffix(s: string, sub: string, i: nat, k: nat)
    requires k <= i && OccursAt(s, sub, i)
    ensures OccursAt(s[k..], sub, i - k)
  {
    assert s[k..][i - k..i - k + |sub|] == s[i..i + |sub|];
  }

  lemma OccursInPrefix(s: string, sub: string, i: nat, m: nat)
    requires i + |sub| <= m <= |s| && OccursAt(s, sub, i)
    ensures OccursAt(s[..m], sub, i)
  {
    assert s[..m][i..i + |sub|] == s[i..i + |sub|];
  }

  /** A string containing a non-blank piece still contains it once stripped. */
  lemma StripKeepsSolidInfix(s: string, sub: string)
    requires |sub| > 0 && NoSpace(sub)
    requires Contains(s, sub)
    ensures Contains(Strip(s), sub)
  {
    var i: nat :| i <= |s| && OccursAt(s, sub, i);
    var t := TrimStart(s);
    var j := TrimStartKeepsSolid(s, sub, i);
    TrimEndKeepsSolid(t, sub, j);
  }

  /** A non-blank piece at `i` survives `lstrip`, shifted left by what it removed. */
  lemma TrimStartKeepsSolid(s: string, sub: string, i: nat) returns (j: nat)
    requires |sub| > 0 && NoSpace(sub) && OccursAt(s, sub, i)
    ensures OccursAt(TrimStart(s), sub, j)
  {
    var t := TrimStart(s);
    var k := |s| - |t|;
    assert i >= k by {
      assert s[i] == s[i..i + |sub|][0] == sub[0];
      assert !IsSpace(s[i]);
    }
    j := i - k;
    assert OccursAt(t, sub, j) by {
      assert t == s[k..];
      OccursInSuffix(s, sub, i, k);
    }
  }

  /** A non-blank piece at `j` survives `rstrip` in place. */
  lemma TrimEndKeepsSolid(t: string, sub: string, j: nat)
    requires |sub| > 0 && NoSpace(sub) && OccursAt(t, sub, j)
    ensures OccursAt(TrimEnd(t), sub, j)
  {
    var r := TrimEnd(t);
    assert j + |sub| <= |r| by {
      assert t[j + |sub| - 1] == t[j..j + |sub|][|sub| - 1] == sub[|sub| - 1];
      assert !IsSpace(t[j + |sub| - 1]);
    }
    OccursInPrefix(t, sub, j, |r|);
  }

  /** Strip is idempotent: a stripped string has nothing left to strip. */
  lemma StripIdempotent(s: string)
    ensures Strip(Strip(s)) == Strip(s)
  {
    var r := Strip(s);
    StripIsTrimmedInfix(s);
    if r != [] {
      assert TrimStart(r) == r;
      assert TrimEnd(r) == r;
    }
  }

  /** `s.split(sep)[-1]` for a one-character separator: the text after the last `sep`. */
  function AfterLast(s: string, sep: char): string {
    if |s| == 0 then s
    else if s[|s| - 1] == sep then []
    else AfterLast(s[..|s| - 1], sep) + [s[|s| - 1]]
  }

  /** The text after the last `sep` holds no `sep`, ends `s`, and is preceded by `sep` unless it is all of `s`. */
  lemma AfterLastShape(s: string, sep: char)
    ensures var r := AfterLast(s, sep);
      && sep !in r && EndsWith(s, r)
      && (|r| < |s| ==> s[|s| - |r| - 1] == sep)
  {
    AfterLastAvoids(s, sep);
    AfterLastEnds(s, sep);
    AfterLastFollowsSep(s, sep);
  }

  /** The text after the last `sep` holds no `sep`. */
  lemma {:induction false} AfterLastAvoids(s: string, sep: char)
    ensures sep !in AfterLast(s, sep)
    decreases |s|
  {
    if |s| > 0 && s[|s| - 1] != sep {
      var init := s[..|s| - 1];
      AfterLastAvoids(init, sep);
      var r := AfterLast(init, sep);
      assert AfterLast(s, sep) == r + [s[|s| - 1]];
      assert forall c :: c in r + [s[|s| - 1]] ==> c in r || c == s[|s| - 1];
    }
  }

  /** The text after the last `sep` is a suffix of `s`. */
  lemma {:induction false} AfterLastEnds(s: string, sep: char)
    ensures EndsWith(s, AfterLast(s, sep))
    decreases |s|
  {
    if |s| > 0 && s[|s| - 1] != sep {
      var init := s[..|s| - 1];
      AfterLastEnds(init, sep);
      var r := AfterLast(init, sep);
      assert AfterLast(s, sep) == r + [s[|s| - 1]];
      assert s[|s| - |r| - 1..] == init[|init| - |r|..] + [s[|s| - 1]];
    }
  }

  /** Unless it is all of `s`, the text after the last `sep` comes right after a `sep`. */
  lemma {:induction false} AfterLastFollowsSep(s: string, sep: char)
    ensures var r := AfterLast(s, sep);
      |r| <= |s| && (|r| < |s| ==> s[|s| - |r| - 1] == sep)
    decreases |s|
  {
    if |s| > 0 && s[|s| - 1] != sep {
      var init := s[..|s| - 1];
      AfterLastFollowsSep(init, sep);
      assert |AfterLast(s, sep)| == |AfterLast(init, sep)| + 1;
    }
  }

  /** `s.split(sep)[0]` for a one-character separator: the text before the first `sep`. */
  function BeforeFirst(s: string, sep: char): (r: string)
    ensures sep !in r
    ensures StartsWith(s, r)
    ensures |r| < |s| ==> s[|r|] == sep
  {
    if |s| == 0 then s
    else if s[0] == sep then []
    else [s[0]] + BeforeFirst(s[1..], sep)
  }

  /** `s.rsplit(sep, 1)[0]`: everything before the last `sep`, or all of `s` when there is none. */
  function BeforeLast(s: string, sep: char): (r: string)
    ensures |r| <= |s|
  {
    if |s| == 0 then s
    else if s[|s| - 1] == sep then s[..|s| - 1]
    else if sep in s[..|s| - 1] then BeforeLast(s[..|s| - 1], sep)
    else s
  }

  /** The text before the last `sep` starts `s`; it is all of `s` when there is no `sep`, else `sep` follows it and never again. */
  lemma {:induction false} BeforeLastShape(s: string, sep: char)
    ensures var r := BeforeLast(s, sep);
      && StartsWith(s, r)
      && (sep !in s ==> r == s)
      && (sep in s ==> |r| < |s| && s[|r|] == sep && sep !in s[|r| + 1..])
    decreases |s|
  {
    if |s| > 0 && s[|s| - 1] != sep {
      var init := s[..|s| - 1];
      if sep in init {
        BeforeLastShape(init, sep);
        var r := BeforeLast(init, sep);
        assert init[..|r|] == s[..|r|];
        assert s[|r| + 1..] == init[|r| + 1..] + [s[|s| - 1]];
      } else {
        assert forall i :: 0 <= i < |s| ==> s[i] != sep by {
          forall i | 0 <= i < |s| ensures s[i] != sep {
            if i < |s| - 1 { assert s[i] == init[i]; }
          }
        }
      }
    }
  }

  /** Index of the first occurrence of `sub` in `s` at or after `from`. */
  function FindFrom(s: string, sub: string, from: nat): (r: Option<nat>)
    requires from <= |s|
    decreases |s| - from
    ensures r.Some? ==> from <= r.value <= |s| && OccursAt(s, sub, r.value)
    ensures r.Some? ==> forall j :: from <= j < r.value ==> !OccursAt(s, sub, j)
    ensures r.None? ==> forall j :: from <= j <= |s| ==> !OccursAt(s, sub, j)
  {
    if OccursAt(s, sub, from) then Some(from)
    else if from == |s| then None
    else FindFrom(s, sub, from + 1)
  }

  /**
   * `s.split(sep)[-1]` for a non-empty separator: Python splits at non-overlapping
   * occurrences found left to right, and the last piece follows the last of them.
   */
  function AfterLastSplit(s: string, sep: string): string
    requires |sep| > 0
    decreases |s|
  {
    var f := FindFrom(s, sep, 0);
    if f.None? then s else AfterLastSplit(s[f.value + |sep|..], sep)
  }

  /** The last piece ends `s` and holds no separator. */
  lemma {:induction false} AfterLastSplitShape(s: string, sep: string)
    requires |sep| > 0
    ensures EndsWith(s, AfterLastSplit(s, sep))
    ensures !Contains(AfterLastSplit(s, sep), sep)
    decreases |s|
  {
    var f := FindFrom(s, sep, 0);
    if f.Some? {
      var k := f.value + |sep|;
      AfterLastSplitShape(s[k..], sep);
      SuffixOfSuffix(s, k, AfterLastSplit(s[k..], sep));
    }
  }

  /** What ends a suffix of `s` ends `s`. */
  lemma SuffixOfSuffix(s: string, k: nat, r: string)
    requires k <= |s| && EndsWith(s[k..], r)
    ensures EndsWith(s, r)
  {
    assert s[|s| - |r|..] == s[k..][|s| - k - |r|..];
  }

  /** The ASCII upper-case partner of a lower-case letter. */
  function UpperAscii(c: char): char
    requires 'a' <= c <= 'z'
  {
    (c as int - 32) as char
  }

  /**
   * Character equality under `re.IGNORECASE` against a lower-case ASCII letter:
   * the letter, its capital, and for `s` also U+017F (LATIN SMALL LETTER LONG S),
   * which Python's matcher treats as equivalent.
   */
  predicate MatchesLetterCI(c: char, letter: char)
    requires 'a' <= letter <= 'z'
  {
    c == letter || c == UpperAscii(letter) || (letter == 's' && c == '\U{17F}')
  }

  /** `word` (lower-case ASCII letters) occurs in `s` at `i`, ignoring case. */
  predicate OccursAtCI(s: string, word: string, i: nat)
    requires forall k :: 0 <= k < |word| ==> 'a' <= word[k] <= 'z'
  {
    i + |word| <= |s| && forall k :: 0 <= k < |word| ==> MatchesLetterCI(s[i + k], word[k])
  }

  predicate ContainsCI(s: string, word: string)
    requires forall k :: 0 <= k < |word| ==> 'a' <= word[k] <= 'z'
  {
    exists i: nat | i <= |s| :: OccursAtCI(s, word, i)
  }

  /** Python's `c.lower()` restricted to ASCII letters; other characters are kept. */
  function LowerAscii(c: char): char {
    if 'A' <= c <= 'Z' then (c as int + 32) as char else c
  }

  function DigitChar(d: nat): (c: char)
    requires d < 10
    ensures '0' <= c <= '9'
  {
    ('0' as int + d) as char
  }

  /** `str(n)` for a natural number: its decimal digits without leading zeros. */
  function NatToString(n: nat): (r: string)
    ensures |r| > 0
    ensures forall i :: 0 <= i < |r| ==> '0' <= r[i] <= '9'
  {
    if n < 10 then [DigitChar(n)] else NatToString(n / 10) + [DigitChar(n % 10)]
  }

  /** The value of a string of decimal digits. */
  function ParseDigits(s: string): nat
    requires forall i :: 0 <= i < |s| ==> '0' <= s[i] <= '9'
  {
    if |s| == 0 then 0 else 10 * ParseDigits(s[..|s| - 1]) + (s[|s| - 1] as int - '0' as int)
  }

  /** Reading back the printed decimal gives the number. */
  lemma {:induction false} ParsePrinted(n: nat)
    ensures ParseDigits(NatToString(n)) == n
  {
    if n >= 10 {
      var s := NatToString(n);
      assert s[..|s| - 1] == NatToString(n / 10);
      ParsePrinted(n / 10);
    }
  }

  /** Distinct numbers print as distinct strings (so `str(index)` keys never collide). */
  lemma NatToStringInjective(a: nat, b: nat)
    requires NatToString(a) == NatToString(b)
    ensures a == b
  {
    ParsePrinted(a);
    ParsePrinted(b);
  }
}
