/** The few Python `str` operations the scoring engine relies on, with the
    semantics CPython gives them: substring test (`in`), `find`, slicing
    with negative indices, `split(sep)`, `split()`, `strip()`, `upper()` and
    the `<` ordering of strings. */
module Strings {

  /** Python's `str.isspace`, restricted to code points below 256 (the same
      set `\s` matches in a `re` pattern over `str`). */
  predicate IsSpace(c: char) {
    var n := c as int;
    (9 <= n <= 13) || (28 <= n <= 32) || n == 133 || n == 160
  }

  /** ASCII part of `str.upper`. */
  function UpperChar(c: char): char {
    if 'a' <= c <= 'z' then (c as int - 32) as char else c
  }

  function Upper(s: string): (r: string)
    ensures |r| == |s|
    ensures forall i | 0 <= i < |s| :: r[i] == UpperChar(s[i])
    ensures forall i | 0 <= i < |r| :: !('a' <= r[i] <= 'z')
  {
    if |s| == 0 then [] else [UpperChar(s[0])] + Upper(s[1..])
  }

  // ---------------------------------------------------------------------
  // Substring occurrence, `in`, `find` and overlapping counts

  /** `pat` occurs in `s` starting at index `i`. */
  predicate OccursAt(pat: string, s: string, i: int) {
    0 <= i && i + |pat| <= |s| && s[i..i + |pat|] == pat
  }

  /** Python's `pat in s` for two strings. */
  predicate IsSubstring(pat: string, s: string) {
    exists i | 0 <= i <= |s| :: OccursAt(pat, s, i)
  }

  /** `s.find(pat, start)` for `start >= 0`: the least index at or after
      `start` where `pat` occurs, or -1. */
  function Find(pat: string, s: string, start: nat): (r: int)
    decreases |s| + 1 - start
    ensures r == -1 || (start <= r <= |s| && OccursAt(pat, s, r))
    ensures r == -1 ==> forall i | start <= i <= |s| :: !OccursAt(pat, s, i)
    ensures r != -1 ==> forall i | start <= i < r :: !OccursAt(pat, s, i)
  {
    if start > |s| then -1
    else if OccursAt(pat, s, start) then start
    else Find(pat, s, start + 1)
  }

  /** Number of start positions `i` in `[k, |s|]` where `pat` occurs,
      overlapping occurrences included. */
  function CountFrom(pat: string, s: string, k: nat): nat
    decreases |s| + 1 - k
  {
    if k > |s| then 0
    else (if OccursAt(pat, s, k) then 1 else 0) + CountFrom(pat, s, k + 1)
  }

  /** Positions without an occurrence do not contribute to the count. */
  lemma {:induction false} CountSkip(pat: string, s: string, a: nat, b: nat)
    requires a <= b
    requires forall i | a <= i < b :: !OccursAt(pat, s, i)
    ensures CountFrom(pat, s, a) == CountFrom(pat, s, b)
    decreases b - a
  {
    if a < b {
      CountSkip(pat, s, a + 1, b);
    }
  }

  /** The count is positive exactly when some occurrence lies at or after `k`. */
  lemma {:induction false} CountPositiveIff(pat: string, s: string, k: nat)
    ensures CountFrom(pat, s, k) > 0 <==> exists i | k <= i <= |s| :: OccursAt(pat, s, i)
    decreases |s| + 1 - k
  {
    if k <= |s| {
      CountPositiveIff(pat, s, k + 1);
      if CountFrom(pat, s, k + 1) > 0 {
        var i :| k + 1 <= i <= |s| && OccursAt(pat, s, i);
        assert k <= i <= |s|;
      }
    }
  }

  /** Python's `pat in s` holds exactly when the overlapping count is positive. */
  lemma SubstringIffCount(pat: string, s: string)
    ensures IsSubstring(pat, s) <==> CountFrom(pat, s, 0) > 0
  {
    CountPositiveIff(pat, s, 0);
  }

  /** `pat` occurs in any string that contains the window it occurs in. */
  lemma SubstringTransitive(pat: string, w: string, s: string)
    requires IsSubstring(pat, w) && IsSubstring(w, s)
    ensures IsSubstring(pat, s)
  {
    var i :| 0 <= i <= |w| && OccursAt(pat, w, i);
    var j :| 0 <= j <= |s| && OccursAt(w, s, j);
    forall m | 0 <= m < |w|
      ensures s[j + m] == w[m]
    {
      assert s[j..j + |w|][m] == w[m];
    }
    assert s[j + i..j + i + |pat|] == pat;
    assert OccursAt(pat, s, j + i);
  }

  // ---------------------------------------------------------------------
  // Slicing with Python's index normalisation

  /** How Python turns a slice bound into an index into a sequence of length
      `n`: negative bounds count from the end, then the bound is clamped. */
  function PyIndex(i: int, n: nat): (r: nat)
    ensures r <= n
    ensures 0 <= i <= n ==> r == i
  {
    if i < 0 then (if i + n < 0 then 0 else i + n)
    else if i > n then n
    else i
  }

  /** `s[a:b]` */
  function PySlice(s: string, a: int, b: int): (r: string)
    ensures 0 <= a <= b <= |s| ==> r == s[a..b]
  {
    var lo := PyIndex(a, |s|);
    var hi := PyIndex(b, |s|);
    if lo < hi then s[lo..hi] else []
  }

  // ---------------------------------------------------------------------
  // `split(sep)` with a one-character separator

  /** `s.split(sep)`: the maximal separator-free pieces, empty ones included. */
  function Split(s: string, sep: char): (parts: seq<string>)
    ensures |parts| >= 1
    ensures forall p | p in parts :: sep !in p
  {
    if |s| == 0 then [""]
    else
      var rest := Split(s[1..], sep);
      if s[0] == sep then [""] + rest
      else [[s[0]] + rest[0]] + rest[1..]
  }

  /** `sep.join(parts)` */
  function Join(parts: seq<string>, sep: char): string
    requires |parts| >= 1
  {
    if |parts| == 1 then parts[0] else parts[0] + [sep] + Join(parts[1..], sep)
  }

  /** Joining the pieces back with the separator gives the original string. */
  lemma {:induction false} JoinSplit(s: string, sep: char)
    ensures Join(Split(s, sep), sep) == s
  {
    if |s| > 0 {
      var rest := Split(s[1..], sep);
      JoinSplit(s[1..], sep);
      if s[0] == sep {
        assert Split(s, sep) == [""] + rest;
        assert ([""] + rest)[1..] == rest;
      } else {
        var parts := Split(s, sep);
        assert parts == [[s[0]] + rest[0]] + rest[1..];
        if |rest| == 1 {
          assert Join(parts, sep) == [s[0]] + rest[0];
        } else {
          assert parts[1..] == rest[1..];
          assert Join(parts, sep) == ([s[0]] + rest[0]) + [sep] + Join(rest[1..], sep);
          assert Join(rest, sep) == rest[0] + [sep] + Join(rest[1..], sep);
        }
      }
    }
  }

  /** There is a second piece (index 1) exactly when the separator occurs. */
  lemma {:induction false} SplitHasSecond(s: string, sep: char)
    ensures |Split(s, sep)| >= 2 <==> sep in s
  {
    if |s| > 0 {
      SplitHasSecond(s[1..], sep);
      assert s == [s[0]] + s[1..];
    }
  }

  // ---------------------------------------------------------------------
  // Whitespace runs, `strip()` and `split()`

  /** End of the run of whitespace starting at `k`. */
  function SpanSpace(s: string, k: nat): (r: nat)
    requires k <= |s|
    decreases |s| - k
    ensures k <= r <= |s|
    ensures forall i | k <= i < r :: IsSpace(s[i])
    ensures r < |s| ==> !IsSpace(s[r])
  {
    if k == |s| || !IsSpace(s[k]) then k else SpanSpace(s, k + 1)
  }

  /** End of the run of non-whitespace starting at `k`. */
  function SpanWord(s: string, k: nat): (r: nat)
    requires k <= |s|
    decreases |s| - k
    ensures k <= r <= |s|
    ensures forall i | k <= i < r :: !IsSpace(s[i])
    ensures r < |s| ==> IsSpace(s[r])
  {
    if k == |s| || IsSpace(s[k]) then k else SpanWord(s, k + 1)
  }

  function LStrip(s: string): (r: string)
    ensures |r| <= |s| && r == s[|s| - |r|..]
    ensures forall i | 0 <= i < |s| - |r| :: IsSpace(s[i])
    ensures |r| > 0 ==> !IsSpace(r[0])
  {
    if |s| > 0 && IsSpace(s[0]) then LStrip(s[1..]) else s
  }

  function RStrip(s: string): (r: string)
    ensures |r| <= |s| && r == s[..|r|]
    ensures forall i | |r| <= i < |s| :: IsSpace(s[i])
    ensures |r| > 0 ==> !IsSpace(r[|r| - 1])
  {
    if |s| > 0 && IsSpace(s[|s| - 1]) then RStrip(s[..|s| - 1]) else s
  }

  /** `s.strip()`: `s` without its leading and trailing whitespace. */
  function Strip(s: string): (r: string)
    ensures forall c | c in r :: c in s
    ensures |r| > 0 ==> !IsSpace(r[0]) && !IsSpace(r[|r| - 1])
    ensures |r| == 0 <==> forall i | 0 <= i < |s| :: IsSpace(s[i])
  {
    StripBlank(s);
    RStrip(LStrip(s))
  }

  lemma StripBlank(s: string)
    ensures |RStrip(LStrip(s))| == 0 <==> forall i | 0 <= i < |s| :: IsSpace(s[i])
  {
    var l := LStrip(s);
    if |l| > 0 {
      assert s[|s| - |l|] == l[0];
    }
  }

  /** `s.strip()` is the slice of `s` between its leading and its trailing
      whitespace. */
  lemma StripBounds(s: string) returns (k: nat)
    ensures k + |Strip(s)| <= |s| && s[k..k + |Strip(s)|] == Strip(s)
    ensures forall i | 0 <= i < k :: IsSpace(s[i])
    ensures forall i | k + |Strip(s)| <= i < |s| :: IsSpace(s[i])
  {
    var l := LStrip(s);
    var r := RStrip(l);
    k := |s| - |l|;
    assert Strip(s) == r;
    assert s[k..k + |r|] == l[..|r|];
    forall i | k + |r| <= i < |s|
      ensures IsSpace(s[i])
    {
      assert s[i] == l[i - k];
    }
  }

  /** `s.split()` with no argument: the maximal whitespace-free runs. */
  function Words(s: string): (ws: seq<string>)
    decreases |s|
    ensures forall w | w in ws :: |w| > 0 && forall i | 0 <= i < |w| :: !IsSpace(w[i])
    ensures |ws| == 0 <==> forall i | 0 <= i < |s| :: IsSpace(s[i])
  {
    var i := SpanSpace(s, 0);
    if i == |s| then []
    else
      var j := SpanWord(s, i);
      [s[i..j]] + Words(s[j..])
  }

  // ---------------------------------------------------------------------
  // Python's `<` on strings: lexicographic by code point

  predicate StrLt(a: string, b: string)
    decreases |a|
  {
    if |a| == 0 then |b| > 0
    else if |b| == 0 then false
    else if a[0] == b[0] then StrLt(a[1..], b[1..])
    else a[0] < b[0]
  }

  lemma {:induction false} StrLtIrreflexive(a: string)
    ensures !StrLt(a, a)
  {
    if |a| > 0 {
      StrLtIrreflexive(a[1..]);
    }
  }

  lemma {:induction false} StrLtTransitive(a: string, b: string, c: string)
    requires StrLt(a, b) && StrLt(b, c)
    ensures StrLt(a, c)
    decreases |a|
  {
    if |a| > 0 && |b| > 0 && |c| > 0 && a[0] == b[0] && b[0] == c[0] {
      StrLtTransitive(a[1..], b[1..], c[1..]);
    }
  }

  /** Any two different strings are ordered one way or the other. */
  lemma {:induction false} StrLtTotal(a: string, b: string)
    ensures a == b || StrLt(a, b) || StrLt(b, a)
    decreases |a|
  {
    if |a| > 0 && |b| > 0 && a[0] == b[0] {
      StrLtTotal(a[1..], b[1..]);
      if a[1..] == b[1..] {
        assert a == [a[0]] + a[1..] && b == [b[0]] + b[1..];
      }
    }
  }
}
