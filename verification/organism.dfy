/** Organism names from UniProt FASTA descriptions.

    `extract_os` runs `re.search(r'OS=([^=]+?)\s*(?:OX=|GN=|PE=|SV=|$)', d)`
    and strips group 1, or answers "Unknown" when nothing matches;
    `get_genus` takes the first whitespace-separated word of a species name. */
module Organism {
  import opened Results
  import opened Strings

  const OsTag: string := "OS="
  const Unknown: string := "Unknown"

  /** One of the tags that may follow the organism name. */
  predicate TagAt(d: string, k: nat) {
    OccursAt("OX=", d, k) || OccursAt("GN=", d, k) || OccursAt("PE=", d, k) || OccursAt("SV=", d, k)
  }

  /** Python's `$` without MULTILINE: at the end, or before a final newline. */
  predicate DollarAt(d: string, k: nat) {
    k == |d| || (k + 1 == |d| && d[k] == '\n')
  }

  predicate AllSpace(d: string, a: nat, b: nat)
    requires a <= b <= |d|
  {
    forall i | a <= i < b :: IsSpace(d[i])
  }

  /** What `\s*(?:OX=|GN=|PE=|SV=|$)` demands at `k`: some whitespace run
      followed by a tag or the end. */
  ghost predicate TailSpec(d: string, k: nat)
    requires k <= |d|
  {
    exists m | k <= m <= |d| :: AllSpace(d, k, m) && (TagAt(d, m) || DollarAt(d, m))
  }

  /** The check the matcher performs: take the whole whitespace run (greedy
      `\s*`) and look for a tag or the end after it. */
  predicate TailMatches(d: string, k: nat)
    requires k <= |d|
  {
    var m := SpanSpace(d, k);
    TagAt(d, m) || m == |d|
  }

  /** Backtracking into a shorter whitespace run cannot help: a tag starts
      with a letter and `$` inside a run would need the run to reach the end. */
  lemma TailMatchesIff(d: string, k: nat)
    requires k <= |d|
    ensures TailMatches(d, k) <==> TailSpec(d, k)
  {
    var m := SpanSpace(d, k);
    if TailMatches(d, k) {
      assert AllSpace(d, k, m) && (TagAt(d, m) || DollarAt(d, m));
    }
    if TailSpec(d, k) {
      var m' :| k <= m' <= |d| && AllSpace(d, k, m') && (TagAt(d, m') || DollarAt(d, m'));
      TagNotSpace(d, m');
    }
  }

  lemma TagNotSpace(d: string, k: nat)
    ensures k < |d| && IsSpace(d[k]) ==> !TagAt(d, k)
  {
    if k < |d| && TagAt(d, k) {
      assert d[k] == d[k..k + 3][0];
    }
  }

  /** Group 1 of a match starting at `s = p + 3` with `n` characters. */
  ghost predicate GroupOk(d: string, s: nat, n: nat) {
    && 1 <= n
    && s + n <= |d|
    && (forall i | s <= i < s + n :: d[i] != '=')
    && TailSpec(d, s + n)
  }

  /** The lazy `[^=]+?`: try group lengths `n`, `n + 1`, ... and stop at
      the first after which the tail matches, or fail at an `=` or the end. */
  function LazyFrom(d: string, s: nat, n: nat): (r: Option<nat>)
    requires 1 <= n && s + n - 1 <= |d|
    decreases |d| - (s + n)
    ensures r.Some? ==> n <= r.value && s + r.value <= |d|
  {
    if s + n > |d| || d[s + n - 1] == '=' then None
    else if TailMatches(d, s + n) then Some(n)
    else LazyFrom(d, s, n + 1)
  }

  /** From length `n` on (all shorter groups free of `=`), the lazy group
      finds the shortest group that lets the rest of the pattern match. */
  lemma {:induction false} LazyFromSpec(d: string, s: nat, n: nat)
    requires 1 <= n && s + n - 1 <= |d|
    requires forall i | s <= i < s + n - 1 :: d[i] != '='
    decreases |d| - (s + n)
    ensures LazyFrom(d, s, n).Some? ==> GroupOk(d, s, LazyFrom(d, s, n).value)
    ensures LazyFrom(d, s, n).Some? ==> forall n' | n <= n' < LazyFrom(d, s, n).value :: !GroupOk(d, s, n')
    ensures LazyFrom(d, s, n).None? ==> forall n' | n <= n' :: !GroupOk(d, s, n')
  {
    if s + n <= |d| && d[s + n - 1] != '=' {
      TailMatchesIff(d, s + n);
      if !TailMatches(d, s + n) {
        LazyFromSpec(d, s, n + 1);
      }
    }
  }

  datatype OsMatch = OsMatch(start: nat, len: nat)

  /** The whole pattern matches at `p` with group 1 of length `n`. */
  ghost predicate MatchesAt(d: string, p: nat, n: nat) {
    OccursAt(OsTag, d, p) && GroupOk(d, p + 3, n)
  }

  /** `re.search` from position `p`: try each start in turn and report the
      first where the lazy group succeeds. */
  function SearchFrom(d: string, p: nat): (r: Option<OsMatch>)
    decreases |d| + 1 - p
    ensures r.Some? ==> p <= r.value.start && 1 <= r.value.len && r.value.start + 3 + r.value.len <= |d|
  {
    if p > |d| then None
    else if OccursAt(OsTag, d, p) then
      match LazyFrom(d, p + 3, 1)
      case Some(n) => Some(OsMatch(p, n))
      case None => SearchFrom(d, p + 1)
    else SearchFrom(d, p + 1)
  }

  /** What the search reports is a match, with the shortest group at its start. */
  lemma {:induction false} SearchFromSound(d: string, p: nat)
    decreases |d| + 1 - p
    ensures var r := SearchFrom(d, p);
      r.Some? ==> MatchesAt(d, r.value.start, r.value.len)
    ensures var r := SearchFrom(d, p);
      r.Some? ==> forall n' | 0 <= n' < r.value.len :: !MatchesAt(d, r.value.start, n')
  {
    if p <= |d| {
      if OccursAt(OsTag, d, p) {
        LazyFromSpec(d, p + 3, 1);
        if LazyFrom(d, p + 3, 1).None? {
          SearchFromSound(d, p + 1);
        }
      } else {
        SearchFromSound(d, p + 1);
      }
    }
  }

  /** A start where the search moves on has no match. */
  lemma NoMatchAt(d: string, p: nat)
    requires p <= |d|
    requires !OccursAt(OsTag, d, p) || LazyFrom(d, p + 3, 1).None?
    ensures forall n' | 0 <= n' :: !MatchesAt(d, p, n')
  {
    if OccursAt(OsTag, d, p) {
      LazyFromSpec(d, p + 3, 1);
    }
  }

  /** No start before the reported one matches. */
  lemma {:induction false} SearchFromLeftmost(d: string, p: nat)
    decreases |d| + 1 - p
    ensures var r := SearchFrom(d, p);
      r.Some? ==> forall p', n' | p <= p' < r.value.start && 0 <= n' :: !MatchesAt(d, p', n')
  {
    if p <= |d| && (!OccursAt(OsTag, d, p) || LazyFrom(d, p + 3, 1).None?) {
      NoMatchAt(d, p);
      SearchFromLeftmost(d, p + 1);
    }
  }

  /** When the search reports nothing, no start matches. */
  lemma {:induction false} SearchFromNone(d: string, p: nat)
    decreases |d| + 1 - p
    ensures SearchFrom(d, p).None? ==> forall p', n' | p <= p' && 0 <= n' :: !MatchesAt(d, p', n')
  {
    if p <= |d| && (!OccursAt(OsTag, d, p) || LazyFrom(d, p + 3, 1).None?) {
      NoMatchAt(d, p);
      SearchFromNone(d, p + 1);
    }
  }

  /** `match.group(1)`, or nothing when the search fails. */
  function OsGroup(d: string): (g: Option<string>)
    ensures g.Some? ==> |g.value| >= 1
  {
    match SearchFrom(d, 0)
    case None => None
    case Some(m) => Some(d[m.start + 3..m.start + 3 + m.len])
  }

  /** `extract_os(description)` */
  function ExtractOs(d: string): string {
    match OsGroup(d)
    case None => Unknown
    case Some(g) => Strip(g)
  }

  /** `(p, n)` is the match `re.search` reports: the leftmost start, and
      there the shortest group. */
  ghost predicate FirstMatch(d: string, p: nat, n: nat) {
    && MatchesAt(d, p, n)
    && (forall p', n' | 0 <= p' < p && 0 <= n' :: !MatchesAt(d, p', n'))
    && (forall n' | 0 <= n' < n :: !MatchesAt(d, p, n'))
  }

  lemma FirstMatchUnique(d: string, p: nat, n: nat, p2: nat, n2: nat)
    requires FirstMatch(d, p, n) && FirstMatch(d, p2, n2)
    ensures p == p2 && n == n2
  {
    assert p <= p2 by { assert MatchesAt(d, p2, n2); }
    assert p2 <= p by { assert MatchesAt(d, p, n); }
  }

  /** The search reports the first match when there is one. */
  lemma SearchFindsFirst(d: string, p: nat, n: nat)
    requires FirstMatch(d, p, n)
    ensures SearchFrom(d, 0) == Some(OsMatch(p, n))
  {
    SearchFromSound(d, 0);
    SearchFromLeftmost(d, 0);
    SearchFromNone(d, 0);
    var r := SearchFrom(d, 0);
    assert r.Some? by {
      assert MatchesAt(d, p, n);
    }
    assert FirstMatch(d, r.value.start, r.value.len);
    FirstMatchUnique(d, p, n, r.value.start, r.value.len);
  }

  /** Group 1 is the group of the match `re.search` reports: leftmost, and
      there the shortest. */
  lemma OsGroupOfMatch(d: string, p: nat, n: nat)
    requires FirstMatch(d, p, n)
    ensures p + 3 + n <= |d| && OsGroup(d) == Some(d[p + 3..p + 3 + n])
  {
    SearchFindsFirst(d, p, n);
  }

  /** There is no group exactly when the pattern matches nowhere; a group
      never contains `=`. */
  lemma OsGroupSpec(d: string)
    ensures OsGroup(d).None? <==> forall p: nat, n: nat :: !MatchesAt(d, p, n)
    ensures OsGroup(d).Some? ==> '=' !in OsGroup(d).value
  {
    SearchFromSound(d, 0);
    SearchFromLeftmost(d, 0);
    SearchFromNone(d, 0);
    var r := SearchFrom(d, 0);
    if r.Some? {
      var m := r.value;
      assert MatchesAt(d, m.start, m.len);
    }
  }

  /** "Unknown" when the pattern matches nowhere; otherwise the stripped
      group, which holds no `=` (a real organism may still be named
      "Unknown"). */
  lemma ExtractOsSpec(d: string)
    ensures (forall p: nat, n: nat :: !MatchesAt(d, p, n)) ==> ExtractOs(d) == Unknown
    ensures OsGroup(d).Some? ==> ExtractOs(d) == Strip(OsGroup(d).value) && '=' !in ExtractOs(d)
  {
    OsGroupSpec(d);
  }

  /** A name that is only whitespace between `OS=` and the next tag comes out
      empty: "OS= OX=1" yields "". */
  lemma BlankOrganism()
    ensures ExtractOs("OS= OX=1") == ""
  {
    var d := "OS= OX=1";
    assert OccursAt(OsTag, d, 0);
    assert SpanSpace(d, 4) == 4;
    assert OccursAt("OX=", d, 4);
    assert TailMatches(d, 4);
    assert LazyFrom(d, 3, 1) == Some(1);
    assert Strip(d[3..4]) == "";
  }

  // ---------------------------------------------------------------------

  datatype GenusError = EmptySpecies

  /** `get_genus`: the first word of the stripped name; indexing an empty
      `split()` raises IndexError, modelled as `EmptySpecies`. */
  function GetGenus(species: string): (r: Result<string, GenusError>)
    ensures r.Err? <==> forall i | 0 <= i < |species| :: IsSpace(species[i])
    ensures r.Ok? ==> |r.value| > 0 && forall i | 0 <= i < |r.value| :: !IsSpace(r.value[i])
  {
    var ws := Words(Strip(species));
    if |ws| == 0 then Err(EmptySpecies) else Ok(ws[0])
  }
  /** `w` sits at `a` in `s` as its first word: only whitespace before it,
      and whitespace or the end of `s` right after it. */
  predicate FirstWordAt(s: string, a: nat, w: string) {
    && a + |w| <= |s|
    && s[a..a + |w|] == w
    && (forall i | 0 <= i < a :: IsSpace(s[i]))
    && (a + |w| == |s| || IsSpace(s[a + |w|]))
  }

  /** The first entry of `Words(r)` for a string `r` that starts with a
      non-space character: the run of non-space characters at its start. */
  lemma FirstWordsEntry(r: string)
    requires |r| > 0 && !IsSpace(r[0])
    ensures |Words(r)| > 0 && Words(r)[0] == r[..SpanWord(r, 0)]
  {
    assert SpanSpace(r, 0) == 0;
  }

  /** A prefix of `r` that ends at whitespace or at the end of `r` is the
      first word of any `s` that holds `r` at `k` between whitespace. */
  lemma PrefixIsFirstWord(s: string, k: nat, r: string, j: nat)
    requires k + |r| <= |s| && s[k..k + |r|] == r
    requires forall i | 0 <= i < k :: IsSpace(s[i])
    requires j <= |r| && (j == |r| || IsSpace(r[j]))
    requires j == |r| ==> (k + |r| == |s| || IsSpace(s[k + |r|]))
    ensures FirstWordAt(s, k, r[..j])
  {
    forall i | 0 <= i < j
      ensures s[k..k + j][i] == r[..j][i]
    {
      assert s[k..k + |r|][i] == s[k + i];
    }
    if j < |r| {
      assert s[k..k + |r|][j] == s[k + j];
    }
  }

  /** A prefix of the stripped string that ends at whitespace or at its end
      is the first word of the original string. */
  lemma StripPrefixFirstWord(s: string, j: nat)
    requires j <= |Strip(s)| && (j == |Strip(s)| || IsSpace(Strip(s)[j]))
    ensures exists a: nat :: FirstWordAt(s, a, Strip(s)[..j])
  {
    var k := StripBounds(s);
    PrefixIsFirstWord(s, k, Strip(s), j);
  }

  /** The genus is the first word of the name: it starts after the leading
      whitespace and ends at whitespace or at the end of the name. */
  lemma GetGenusFirstWord(species: string)
    requires GetGenus(species).Ok?
    ensures exists a: nat :: FirstWordAt(species, a, GetGenus(species).value)
  {
    var r := Strip(species);
    assert |r| > 0;
    FirstWordsEntry(r);
    var j := SpanWord(r, 0);
    assert GetGenus(species).value == r[..j];
    StripPrefixFirstWord(species, j);
  }
}
