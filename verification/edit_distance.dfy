/** The approximate-matching primitive the engine calls: edlib's `align` in
    `HW` ("infix") mode with `task='distance'`. The query must align in full,
    while the part of the target before and after the aligned region costs
    nothing. With unit costs that is the least Levenshtein distance between
    the query and any substring of the target. */
module EditDistance {
  import opened Strings

  function Min(a: nat, b: nat): nat {
    if a <= b then a else b
  }

  /** Levenshtein distance: unit-cost insertions, deletions and substitutions. */
  function Lev(a: string, b: string): nat
    decreases |a| + |b|
  {
    if |a| == 0 then |b|
    else if |b| == 0 then |a|
    else
      Min(Min(Lev(a[1..], b) + 1, Lev(a, b[1..]) + 1),
          Lev(a[1..], b[1..]) + (if a[0] == b[0] then 0 else 1))
  }

  /** A string is at distance 0 from exactly itself. */
  lemma {:induction false} LevZeroIff(a: string, b: string)
    ensures Lev(a, b) == 0 <==> a == b
    decreases |a| + |b|
  {
    if |a| > 0 && |b| > 0 {
      LevZeroIff(a[1..], b[1..]);
      if a == b {
        assert a[1..] == b[1..];
      }
      if Lev(a, b) == 0 {
        assert a == [a[0]] + a[1..] && b == [b[0]] + b[1..];
      }
    }
  }

  /** Least `Lev(q, t[i..e])` over the ends `e` in `[j, |t|]`. */
  function MinOverEnds(q: string, t: string, i: nat, j: nat): nat
    requires i <= j <= |t|
    decreases |t| - j
  {
    if j == |t| then Lev(q, t[i..j])
    else Min(Lev(q, t[i..j]), MinOverEnds(q, t, i, j + 1))
  }

  /** Least `MinOverEnds(q, t, s, s)` over the starts `s` in `[i, |t|]`. */
  function MinOverStarts(q: string, t: string, i: nat): nat
    requires i <= |t|
    decreases |t| - i
  {
    if i == |t| then MinOverEnds(q, t, i, i)
    else Min(MinOverEnds(q, t, i, i), MinOverStarts(q, t, i + 1))
  }

  /** edlib's HW ("infix") distance of `q` inside `t`. */
  function HWDist(q: string, t: string): nat {
    MinOverStarts(q, t, 0)
  }

  lemma {:induction false} MinOverEndsBounds(q: string, t: string, i: nat, j: nat)
    requires i <= j <= |t|
    ensures forall e | j <= e <= |t| :: MinOverEnds(q, t, i, j) <= Lev(q, t[i..e])
    ensures exists e | j <= e <= |t| :: MinOverEnds(q, t, i, j) == Lev(q, t[i..e])
    decreases |t| - j
  {
    var m := MinOverEnds(q, t, i, j);
    var here := Lev(q, t[i..j]);
    if j < |t| {
      MinOverEndsBounds(q, t, i, j + 1);
      var later := MinOverEnds(q, t, i, j + 1);
      assert m == Min(here, later);
      forall e | j <= e <= |t|
        ensures m <= Lev(q, t[i..e])
      {
        if e > j {
          assert later <= Lev(q, t[i..e]);
        }
      }
      if later < here {
        var e :| j + 1 <= e <= |t| && later == Lev(q, t[i..e]);
        assert m == Lev(q, t[i..e]);
      }
    } else {
      assert m == here;
    }
  }

  lemma {:induction false} MinOverStartsBounds(q: string, t: string, i: nat)
    requires i <= |t|
    ensures forall s, e | i <= s <= e <= |t| :: MinOverStarts(q, t, i) <= Lev(q, t[s..e])
    ensures exists s, e | i <= s <= e <= |t| :: MinOverStarts(q, t, i) == Lev(q, t[s..e])
    decreases |t| - i
  {
    MinOverEndsBounds(q, t, i, i);
    var here := MinOverEnds(q, t, i, i);
    if i == |t| {
      assert MinOverStarts(q, t, i) == here;
    } else {
      MinOverStartsBounds(q, t, i + 1);
      var later := MinOverStarts(q, t, i + 1);
      var m := MinOverStarts(q, t, i);
      assert m == Min(here, later);
      forall s, e | i <= s <= e <= |t|
        ensures m <= Lev(q, t[s..e])
      {
        if s == i {
          assert here <= Lev(q, t[i..e]);
        } else {
          assert later <= Lev(q, t[s..e]);
        }
      }
      if here <= later {
        var e :| i <= e <= |t| && here == Lev(q, t[i..e]);
        assert m == Lev(q, t[i..e]);
      } else {
        var s, e :| i + 1 <= s <= e <= |t| && later == Lev(q, t[s..e]);
        assert m == Lev(q, t[s..e]);
      }
    }
  }

  /** The HW distance is the least Levenshtein distance between `q` and a
      substring of `t`: a lower bound on every substring, attained by one. */
  lemma HWDistIsMinimum(q: string, t: string)
    ensures forall s, e | 0 <= s <= e <= |t| :: HWDist(q, t) <= Lev(q, t[s..e])
    ensures exists s, e | 0 <= s <= e <= |t| :: HWDist(q, t) == Lev(q, t[s..e])
  {
    MinOverStartsBounds(q, t, 0);
  }

  /** Aligning against the empty substring costs `|q|`, so the distance never
      exceeds the query's length; it is 0 exactly when `q` occurs verbatim. */
  lemma HWDistFacts(q: string, t: string)
    ensures HWDist(q, t) <= |q|
    ensures HWDist(q, t) == 0 <==> IsSubstring(q, t)
  {
    HWDistIsMinimum(q, t);
    assert Lev(q, t[0..0]) == |q|;
    if HWDist(q, t) == 0 {
      var s, e :| 0 <= s <= e <= |t| && HWDist(q, t) == Lev(q, t[s..e]);
      LevZeroIff(q, t[s..e]);
      assert OccursAt(q, t, s);
    }
    if IsSubstring(q, t) {
      var i :| 0 <= i <= |t| && OccursAt(q, t, i);
      LevZeroIff(q, t[i..i + |q|]);
      assert Lev(q, t[i..i + |q|]) == 0;
    }
  }

  /** What `edlib.align(q, t, mode='HW', task='distance')` hands back. */
  datatype EdlibResult = EdlibResult(editDistance: int)

  /** edlib reports -1 only when a distance limit `k` is exceeded; no call in
      the engine passes one, so the sentinel never comes back. */
  function EdlibAlign(q: string, t: string): (r: EdlibResult)
    ensures 0 <= r.editDistance <= |q|
    ensures r.editDistance == 0 <==> IsSubstring(q, t)
  {
    HWDistFacts(q, t);
    EdlibResult(HWDist(q, t))
  }

  /** The engine's identity for an alignment of `len` residues at edit
      distance `d`: `1.0 - d / len`. */
  function Identity(d: int, len: nat): real
    requires len > 0
  {
    1.0 - (d as real) / (len as real)
  }

  /** A distance within `[0, len]` gives an identity within `[0, 1]`, and
      identity 1 means distance 0. */
  lemma IdentityRange(d: int, len: nat)
    requires len > 0 && 0 <= d <= len
    ensures 0.0 <= Identity(d, len) <= 1.0
    ensures Identity(d, len) == 1.0 <==> d == 0
  {
    var x := (d as real) / (len as real);
    assert x * (len as real) == d as real;
    if d > 0 {
      assert x > 0.0;
    }
    if x > 1.0 {
      assert x * (len as real) > len as real;
    }
  }
}
