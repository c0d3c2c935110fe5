/** The "best entry per key" dict loop written twice, in `dedup_by_os`
    (key: organism, score: composite score) and in the `best_per_genus` loop
    of `summarize_species_dedup_genus` (key: genus, score: max_score):

        best = {}
        for x in xs:
            if key(x) not in best or score(x) > best[key(x)].score:
                best[key(x)] = x
        return list(best.values())

    A Python dict iterates in first-insertion order, and replacing a value
    keeps its key's position, so the dict is modelled as a sequence with at
    most one entry per key. */
module KeepBest {
  import StableSort

  /** First index of an element of `s` with key `k`, or `|s|` when none has it. */
  function FirstIndex<T, K(==)>(s: seq<T>, k: K, key: T -> K): (r: nat)
    ensures r <= |s|
    ensures r < |s| ==> key(s[r]) == k
    ensures forall m | 0 <= m < r :: key(s[m]) != k
  {
    if |s| == 0 then 0
    else if key(s[0]) == k then 0
    else 1 + FirstIndex(s[1..], k, key)
  }

  /** One iteration: a new key is appended, a strictly better entry replaces
      the stored one in place, anything else leaves the table unchanged. */
  function Upsert<T, K(==)>(table: seq<T>, x: T, key: T -> K, score: T -> real): seq<T> {
    var i := FirstIndex(table, key(x), key);
    if i == |table| then table + [x]
    else if score(x) > score(table[i]) then table[i := x]
    else table
  }

  /** The table after the first `n` elements of `xs`. */
  function KeepBestUpTo<T, K(==)>(xs: seq<T>, n: nat, key: T -> K, score: T -> real): seq<T>
    requires n <= |xs|
  {
    if n == 0 then [] else Upsert(KeepBestUpTo(xs, n - 1, key, score), xs[n - 1], key, score)
  }

  function KeepBest<T, K(==)>(xs: seq<T>, key: T -> K, score: T -> real): seq<T> {
    KeepBestUpTo(xs, |xs|, key, score)
  }

  // ---------------------------------------------------------------------
  // Specification

  ghost predicate KeysDistinct<T, K>(s: seq<T>, key: T -> K) {
    forall i, j | 0 <= i < j < |s| :: key(s[i]) != key(s[j])
  }

  /** Among `xs[..n]`, `xs[j]` has the highest score for its key and every
      earlier element with that key scores strictly less. */
  ghost predicate IsWinner<T, K>(xs: seq<T>, n: nat, j: int, key: T -> K, score: T -> real) {
    && 0 <= j < n <= |xs|
    && (forall m | 0 <= m < n && key(xs[m]) == key(xs[j]) :: score(xs[m]) <= score(xs[j]))
    && (forall m | 0 <= m < j && key(xs[m]) == key(xs[j]) :: score(xs[m]) < score(xs[j]))
  }

  /** `x` is the winner for its key among `xs[..n]`. */
  ghost predicate IsWinning<T, K>(xs: seq<T>, n: nat, x: T, key: T -> K, score: T -> real) {
    exists j :: IsWinner(xs, n, j, key, score) && x == xs[j]
  }

  /** Every entry of `t` is the winner for its key among `xs[..n]`. */
  ghost predicate Winners<T, K>(xs: seq<T>, n: nat, t: seq<T>, key: T -> K, score: T -> real) {
    forall i | 0 <= i < |t| :: IsWinning(xs, n, t[i], key, score)
  }

  /** Every key of `xs[..n]` has an entry in `t`. */
  ghost predicate Covers<T, K>(xs: seq<T>, n: nat, t: seq<T>, key: T -> K)
    requires n <= |xs|
  {
    forall m | 0 <= m < n :: FirstIndex(t, key(xs[m]), key) < |t|
  }

  /** The entries of `t` follow the first appearance of their keys in `xs`. */
  ghost predicate FirstSeenOrder<T, K>(xs: seq<T>, t: seq<T>, key: T -> K) {
    forall i1, i2 | 0 <= i1 < i2 < |t| :: FirstIndex(xs, key(t[i1]), key) < FirstIndex(xs, key(t[i2]), key)
  }

  /** What the table holds after `n` elements: one entry per key seen, each
      the winner for its key, in order of each key's first appearance. */
  ghost predicate Holds<T, K>(xs: seq<T>, n: nat, t: seq<T>, key: T -> K, score: T -> real)
    requires n <= |xs|
  {
    && KeysDistinct(t, key)
    && Winners(xs, n, t, key, score)
    && Covers(xs, n, t, key)
    && FirstSeenOrder(xs, t, key)
  }

  lemma {:induction false} FirstIndexAtMost<T, K>(s: seq<T>, j: nat, key: T -> K)
    requires j < |s|
    ensures FirstIndex(s, key(s[j]), key) <= j
  {
  }

  lemma {:induction false} FirstIndexAppend<T, K>(s: seq<T>, x: T, k: K, key: T -> K)
    ensures FirstIndex(s + [x], k, key) == if FirstIndex(s, k, key) < |s| then FirstIndex(s, k, key)
                                           else if key(x) == k then |s| else |s| + 1
  {
    if |s| > 0 {
      assert (s + [x])[1..] == s[1..] + [x];
      FirstIndexAppend(s[1..], x, k, key);
    }
  }

  lemma {:induction false} FirstIndexSameKeys<T, K>(s: seq<T>, s': seq<T>, k: K, key: T -> K)
    requires |s| == |s'| && forall i | 0 <= i < |s| :: key(s[i]) == key(s'[i])
    ensures FirstIndex(s, k, key) == FirstIndex(s', k, key)
    decreases |s|
  {
    if |s| > 0 {
      FirstIndexSameKeys(s[1..], s'[1..], k, key);
    }
  }

  // --- a key not yet in the table: the element is appended

  /** No earlier element shares the key of an element whose key the table lacks. */
  lemma {:induction false} NewKeyFresh<T, K>(xs: seq<T>, n: nat, t: seq<T>, key: T -> K)
    requires n < |xs| && Covers(xs, n, t, key)
    requires FirstIndex(t, key(xs[n]), key) == |t|
    ensures forall m | 0 <= m < n :: key(xs[m]) != key(xs[n])
    ensures FirstIndex(xs, key(xs[n]), key) == n
  {
    forall m | 0 <= m < n
      ensures key(xs[m]) != key(xs[n])
    {
      assert FirstIndex(t, key(xs[m]), key) < |t|;
    }
  }

  lemma {:induction false} NewKeyDistinct<T, K>(t: seq<T>, x: T, key: T -> K)
    requires KeysDistinct(t, key) && FirstIndex(t, key(x), key) == |t|
    ensures KeysDistinct(t + [x], key)
  {
  }

  lemma {:induction false} NewKeyCovers<T, K>(xs: seq<T>, n: nat, t: seq<T>, key: T -> K)
    requires n < |xs| && Covers(xs, n, t, key)
    ensures Covers(xs, n + 1, t + [xs[n]], key)
  {
    forall m | 0 <= m < n + 1
      ensures FirstIndex(t + [xs[n]], key(xs[m]), key) < |t| + 1
    {
      FirstIndexAppend(t, xs[n], key(xs[m]), key);
    }
  }

  lemma {:induction false} NewKeyWinners<T, K>(xs: seq<T>, n: nat, t: seq<T>, key: T -> K, score: T -> real)
    requires n < |xs| && Winners(xs, n, t, key, score)
    requires forall m | 0 <= m < n :: key(xs[m]) != key(xs[n])
    ensures Winners(xs, n + 1, t + [xs[n]], key, score)
  {
    var t' := t + [xs[n]];
    forall i | 0 <= i < |t'|
      ensures IsWinning(xs, n + 1, t'[i], key, score)
    {
      if i < |t| {
        assert IsWinning(xs, n, t[i], key, score);
        var j :| IsWinner(xs, n, j, key, score) && t[i] == xs[j];
        assert IsWinner(xs, n + 1, j, key, score);
      } else {
        assert IsWinner(xs, n + 1, n, key, score);
      }
    }
  }

  lemma {:induction false} NewKeyOrder<T, K>(xs: seq<T>, n: nat, t: seq<T>, key: T -> K, score: T -> real)
    requires n < |xs| && Winners(xs, n, t, key, score) && FirstSeenOrder(xs, t, key)
    requires FirstIndex(xs, key(xs[n]), key) == n
    ensures FirstSeenOrder(xs, t + [xs[n]], key)
  {
    var t' := t + [xs[n]];
    forall i1, i2 | 0 <= i1 < i2 < |t'|
      ensures FirstIndex(xs, key(t'[i1]), key) < FirstIndex(xs, key(t'[i2]), key)
    {
      if i2 == |t| {
        assert IsWinning(xs, n, t[i1], key, score);
        var j :| IsWinner(xs, n, j, key, score) && t[i1] == xs[j];
        FirstIndexAtMost(xs, j, key);
      } else {
        assert t'[i1] == t[i1] && t'[i2] == t[i2];
      }
    }
  }

  // --- a strictly better element: it replaces the stored entry in place

  /** Replacing an entry by one with the same key keeps distinctness,
      coverage and order. */
  lemma {:induction false} SameKeysKeepShape<T, K>(xs: seq<T>, n: nat, t: seq<T>, t': seq<T>, key: T -> K)
    requires n < |xs|
    requires |t| == |t'| && forall i | 0 <= i < |t| :: key(t[i]) == key(t'[i])
    requires FirstIndex(t, key(xs[n]), key) < |t|
    requires KeysDistinct(t, key) && Covers(xs, n, t, key) && FirstSeenOrder(xs, t, key)
    ensures KeysDistinct(t', key) && Covers(xs, n + 1, t', key) && FirstSeenOrder(xs, t', key)
  {
    forall m | 0 <= m < n + 1
      ensures FirstIndex(t', key(xs[m]), key) < |t'|
    {
      FirstIndexSameKeys(t, t', key(xs[m]), key);
    }
  }

  lemma {:induction false} ReplaceWinners<T, K>(xs: seq<T>, n: nat, t: seq<T>, i: nat, key: T -> K, score: T -> real)
    requires n < |xs| && KeysDistinct(t, key) && Winners(xs, n, t, key, score)
    requires i < |t| && key(t[i]) == key(xs[n])
    requires score(xs[n]) > score(t[i])
    ensures Winners(xs, n + 1, t[i := xs[n]], key, score)
  {
    var t' := t[i := xs[n]];
    forall i' | 0 <= i' < |t'|
      ensures IsWinning(xs, n + 1, t'[i'], key, score)
    {
      assert IsWinning(xs, n, t[i'], key, score);
      var j :| IsWinner(xs, n, j, key, score) && t[i'] == xs[j];
      if i' == i {
        forall m | 0 <= m < n && key(xs[m]) == key(xs[n])
          ensures score(xs[m]) < score(xs[n])
        {
          assert key(xs[m]) == key(xs[j]);
        }
        assert IsWinner(xs, n + 1, n, key, score);
      } else {
        assert key(xs[j]) != key(xs[n]);
        assert IsWinner(xs, n + 1, j, key, score);
      }
    }
  }

  // --- an element that does not beat the stored entry: nothing changes

  lemma {:induction false} KeepWinners<T, K>(xs: seq<T>, n: nat, t: seq<T>, i: nat, key: T -> K, score: T -> real)
    requires n < |xs| && Winners(xs, n, t, key, score)
    requires i < |t| && key(t[i]) == key(xs[n]) && score(xs[n]) <= score(t[i])
    requires KeysDistinct(t, key)
    ensures Winners(xs, n + 1, t, key, score)
  {
    forall i' | 0 <= i' < |t|
      ensures IsWinning(xs, n + 1, t[i'], key, score)
    {
      assert IsWinning(xs, n, t[i'], key, score);
      var j :| IsWinner(xs, n, j, key, score) && t[i'] == xs[j];
      if i' != i {
        assert key(xs[j]) != key(xs[n]);
      }
      assert IsWinner(xs, n + 1, j, key, score);
    }
  }

  lemma {:induction false} KeepCovers<T, K>(xs: seq<T>, n: nat, t: seq<T>, key: T -> K)
    requires n < |xs| && Covers(xs, n, t, key)
    requires FirstIndex(t, key(xs[n]), key) < |t|
    ensures Covers(xs, n + 1, t, key)
  {
  }

  /** One iteration of the loop keeps the table's invariant. */
  lemma {:induction false} StepHolds<T, K>(xs: seq<T>, n: nat, t: seq<T>, key: T -> K, score: T -> real)
    requires n < |xs| && Holds(xs, n, t, key, score)
    ensures Holds(xs, n + 1, Upsert(t, xs[n], key, score), key, score)
  {
    var x := xs[n];
    var i := FirstIndex(t, key(x), key);
    if i == |t| {
      NewKeyFresh(xs, n, t, key);
      NewKeyDistinct(t, x, key);
      NewKeyCovers(xs, n, t, key);
      NewKeyWinners(xs, n, t, key, score);
      NewKeyOrder(xs, n, t, key, score);
    } else if score(x) > score(t[i]) {
      var t' := t[i := x];
      SameKeysKeepShape(xs, n, t, t', key);
      ReplaceWinners(xs, n, t, i, key, score);
    } else {
      KeepWinners(xs, n, t, i, key, score);
      KeepCovers(xs, n, t, key);
    }
  }

  lemma {:induction false} KeepBestUpToHolds<T, K>(xs: seq<T>, n: nat, key: T -> K, score: T -> real)
    requires n <= |xs|
    ensures Holds(xs, n, KeepBestUpTo(xs, n, key, score), key, score)
  {
    if n > 0 {
      KeepBestUpToHolds(xs, n - 1, key, score);
      var t := KeepBestUpTo(xs, n - 1, key, score);
      assert KeepBestUpTo(xs, n, key, score) == Upsert(t, xs[n - 1], key, score);
      StepHolds(xs, n - 1, t, key, score);
    }
  }

  /** The loop's result: keys are distinct; every key of the input has an
      entry; each entry is the input element with the highest score for its
      key, the earliest one on ties; entries follow first appearance of keys. */
  lemma {:induction false} KeepBestSpec<T, K>(xs: seq<T>, key: T -> K, score: T -> real)
    ensures KeysDistinct(KeepBest(xs, key, score), key)
    ensures Winners(xs, |xs|, KeepBest(xs, key, score), key, score)
    ensures Covers(xs, |xs|, KeepBest(xs, key, score), key)
    ensures FirstSeenOrder(xs, KeepBest(xs, key, score), key)
  {
    KeepBestUpToHolds(xs, |xs|, key, score);
  }

  /** On input whose keys are already distinct the loop is the identity. */
  lemma {:induction false} KeepBestDistinct<T, K>(ys: seq<T>, n: nat, key: T -> K, score: T -> real)
    requires n <= |ys| && KeysDistinct(ys, key)
    ensures KeepBestUpTo(ys, n, key, score) == ys[..n]
  {
    if n > 0 {
      KeepBestDistinct(ys, n - 1, key, score);
      assert ys[..n] == ys[..n - 1] + [ys[n - 1]];
      assert FirstIndex(ys[..n - 1], key(ys[n - 1]), key) == n - 1;
    }
  }

  /** Running the loop twice gives the same result as running it once. */
  lemma {:induction false} KeepBestIdempotent<T, K>(xs: seq<T>, key: T -> K, score: T -> real)
    ensures KeepBest(KeepBest(xs, key, score), key, score) == KeepBest(xs, key, score)
  {
    var out := KeepBest(xs, key, score);
    KeepBestSpec(xs, key, score);
    KeepBestDistinct(out, |out|, key, score);
    assert out[..|out|] == out;
  }

  /** Sorting a table with distinct keys keeps them distinct. */
  lemma {:induction false} SortKeepsKeysDistinct<T, K>(s: seq<T>, le: (T, T) -> bool, key: T -> K)
    requires KeysDistinct(s, key)
    ensures KeysDistinct(StableSort.SortBy(s, le), key)
  {
    if |s| > 0 {
      SortKeepsKeysDistinct(s[1..], le, key);
      StableSort.SortPermutes(s[1..], le);
      var t := StableSort.SortBy(s[1..], le);
      forall y | y in t
        ensures key(y) != key(s[0])
      {
        assert y in multiset(t);
        var j :| 0 <= j < |s[1..]| && s[1..][j] == y;
        assert key(s[j + 1]) != key(s[0]);
      }
      InsertKeysDistinct(s[0], t, le, key);
    }
  }

  /** Putting an element with a fresh key in front keeps keys distinct. */
  lemma {:induction false} ConsKeysDistinct<T, K>(y: T, t: seq<T>, key: T -> K)
    requires KeysDistinct(t, key)
    requires forall z | z in t :: key(z) != key(y)
    ensures KeysDistinct([y] + t, key)
  {
    var s := [y] + t;
    forall i, j | 0 <= i < j < |s|
      ensures key(s[i]) != key(s[j])
    {
      assert s[j] == t[j - 1];
      if i > 0 {
        assert s[i] == t[i - 1];
      }
    }
  }

  /** Everything in `Insert(x, t[1..], le)` is `x` or in `t[1..]`. */
  lemma {:induction false} InsertMembers<T>(x: T, t: seq<T>, le: (T, T) -> bool, y: T)
    requires y in StableSort.Insert(x, t, le)
    ensures y == x || y in t
  {
    StableSort.InsertPermutes(x, t, le);
    assert y in multiset(StableSort.Insert(x, t, le));
  }

  lemma {:induction false} InsertKeysDistinct<T, K>(x: T, t: seq<T>, le: (T, T) -> bool, key: T -> K)
    requires KeysDistinct(t, key)
    requires forall y | y in t :: key(y) != key(x)
    ensures KeysDistinct(StableSort.Insert(x, t, le), key)
  {
    if |t| == 0 {
      assert StableSort.Insert(x, t, le) == [x];
    } else if le(x, t[0]) {
      assert StableSort.Insert(x, t, le) == [x] + t;
      ConsKeysDistinct(x, t, key);
    } else {
      var rest := StableSort.Insert(x, t[1..], le);
      assert StableSort.Insert(x, t, le) == [t[0]] + rest;
      assert KeysDistinct(t[1..], key) by {
        forall i, j | 0 <= i < j < |t[1..]|
          ensures key(t[1..][i]) != key(t[1..][j])
        {
          assert t[1..][i] == t[i + 1] && t[1..][j] == t[j + 1];
        }
      }
      InsertKeysDistinct(x, t[1..], le, key);
      forall y | y in rest
        ensures key(y) != key(t[0])
      {
        InsertMembers(x, t[1..], le, y);
        if y != x {
          var j :| 0 <= j < |t[1..]| && t[1..][j] == y;
          assert key(t[j + 1]) != key(t[0]);
        }
      }
      ConsKeysDistinct(t[0], rest, key);
    }
  }
}
