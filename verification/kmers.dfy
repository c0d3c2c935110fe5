/** Exact-substring evidence used next to the alignment score: overlapping
    hit counts (`count_substring_hits`), the set of a query's 8-mers, and
    `has_exact8mer`. */
module Kmers {
  import opened Strings

  /** Length of the exact seeds. `check_one_target` calls its flag `has_6mer`, but
      the seeds it tests are 8 residues long. */
  const SeedLength: nat := 8

  /** `count_substring_hits(sub, t)`: repeated `find`, restarting one past
      each hit, so overlapping occurrences all count. */
  method CountSubstringHits(sub: string, t: string) returns (count: nat)
    ensures count == CountFrom(sub, t, 0)
    ensures count > 0 <==> IsSubstring(sub, t)
  {
    count := 0;
    var start: nat := 0;
    while true
      invariant start <= |t| + 1
      invariant count + CountFrom(sub, t, start) == CountFrom(sub, t, 0)
      decreases |t| + 1 - start
    {
      var found := Find(sub, t, start);
      if found == -1 {
        CountSkip(sub, t, start, |t| + 1);
        break;
      }
      CountSkip(sub, t, start, found);
      count := count + 1;
      start := found + 1;
    }
    SubstringIffCount(sub, t);
  }

  // ---------------------------------------------------------------------
  // The set of k-mers of a query

  /** The `k`-mer starting at `i` occurs verbatim in `t`. */
  predicate KmerOccurs(q: string, t: string, k: nat, i: nat) {
    i + k <= |q| && IsSubstring(q[i..i + k], t)
  }

  /** The `k` residues of `q` starting at `j`. */
  function Kmer(q: string, k: nat, j: nat): string
    requires j + k <= |q|
  {
    q[j..j + k]
  }

  /** `x` is one of the `k`-mers of `q` at offset `i` or later. */
  ghost predicate KmerOfFrom(x: string, q: string, k: nat, i: nat) {
    exists j | i <= j && j + k <= |q| :: x == Kmer(q, k, j)
  }

  /** The `k`-mers of `q` from offset `i` on, in order, repeats included. */
  function KmersFrom(q: string, k: nat, i: nat): (r: seq<string>)
    decreases |q| - i
    ensures forall x | x in r :: KmerOfFrom(x, q, k, i)
    ensures forall j | i <= j && j + k <= |q| :: Kmer(q, k, j) in r
  {
    if i + k > |q| then [] else [Kmer(q, k, i)] + KmersFrom(q, k, i + 1)
  }

  predicate NoDuplicates(s: seq<string>) {
    forall a, b | 0 <= a < b < |s| :: s[a] != s[b]
  }

  /** First occurrences of `s`, in order: what iterating a Python set built
      from `s` visits, up to order. */
  function Dedupe(s: seq<string>): (r: seq<string>)
    ensures NoDuplicates(r)
    ensures forall x :: x in r <==> x in s
  {
    if |s| == 0 then []
    else
      var r := Dedupe(s[..|s| - 1]);
      var x := s[|s| - 1];
      assert forall y :: y in s <==> y in s[..|s| - 1] || y == x;
      if x in r then r else r + [x]
  }

  /** `{q[i:i+k] for i in range(len(q) - k + 1)}`, as a duplicate-free sequence. */
  function DistinctKmers(q: string, k: nat): (r: seq<string>)
    ensures NoDuplicates(r)
    ensures forall x :: x in r <==> KmerOfFrom(x, q, k, 0)
  {
    Dedupe(KmersFrom(q, k, 0))
  }

  /** Sum of the overlapping hit counts of every string of `ms` in `t`. */
  function SumCounts(ms: seq<string>, t: string): nat {
    if |ms| == 0 then 0 else CountFrom(ms[0], t, 0) + SumCounts(ms[1..], t)
  }

  lemma {:induction false} SumCountsPositive(ms: seq<string>, t: string)
    ensures SumCounts(ms, t) > 0 <==> exists m | m in ms :: IsSubstring(m, t)
  {
    if |ms| > 0 {
      SumCountsPositive(ms[1..], t);
      SubstringIffCount(ms[0], t);
      assert forall m | m in ms :: m == ms[0] || m in ms[1..];
    }
  }

  /** The total number of 8-mer hits: one count per distinct 8-mer. */
  function EightmerHitCount(q: string, t: string): nat {
    SumCounts(DistinctKmers(q, SeedLength), t)
  }

  // ---------------------------------------------------------------------
  // `has_exact8mer`

  /** Does some `k`-mer at offset `i` or later occur in `t`? */
  function AnyKmerFrom(q: string, t: string, k: nat, i: nat): (r: bool)
    decreases |q| - i
    ensures r <==> exists j | i <= j :: KmerOccurs(q, t, k, j)
  {
    if i + k > |q| then false
    else KmerOccurs(q, t, k, i) || AnyKmerFrom(q, t, k, i + 1)
  }

  /** `has_exact8mer(q, t)`: some 8 consecutive residues of `q` occur in `t`. */
  function HasExact8mer(q: string, t: string): (r: bool)
    ensures r <==> exists j | 0 <= j :: KmerOccurs(q, t, SeedLength, j)
    ensures |q| < SeedLength ==> !r
  {
    AnyKmerFrom(q, t, SeedLength, 0)
  }

  /** The 8-mer hit count is positive exactly when the exact-8-mer flag is set. */
  lemma EightmerCountIffFlag(q: string, t: string)
    ensures EightmerHitCount(q, t) > 0 <==> HasExact8mer(q, t)
  {
    var ms := DistinctKmers(q, SeedLength);
    SumCountsPositive(ms, t);
    if HasExact8mer(q, t) {
      var j :| 0 <= j && KmerOccurs(q, t, SeedLength, j);
      assert Kmer(q, SeedLength, j) in ms;
    }
    if exists m | m in ms :: IsSubstring(m, t) {
      var m :| m in ms && IsSubstring(m, t);
      assert KmerOfFrom(m, q, SeedLength, 0);
      var j :| 0 <= j && j + SeedLength <= |q| && m == Kmer(q, SeedLength, j);
      assert KmerOccurs(q, t, SeedLength, j);
    }
  }

  /** A query that shares an 8-mer with the target also shares every
      shorter stretch inside it: a verbatim window of 8 or more residues
      implies the flag. */
  lemma LongWindowImpliesFlag(q: string, t: string, i: nat, w: nat)
    requires SeedLength <= w && i + w <= |q| && IsSubstring(q[i..i + w], t)
    ensures HasExact8mer(q, t)
  {
    var win := q[i..i + w];
    assert win[0..SeedLength] == q[i..i + SeedLength];
    assert OccursAt(q[i..i + SeedLength], win, 0);
    SubstringTransitive(q[i..i + SeedLength], win, t);
    assert KmerOccurs(q, t, SeedLength, i);
  }
}
