/** `best_epitope_identity_edlib`: each catalogued epitope of length at
    least six is aligned (HW mode) against the whole query. The matcher
    keeps the best identity and every epitope tied for it, and returns at
    once on a perfect match. */
module EpitopeMatch {
  import opened Results
  import opened Strings
  import opened EditDistance

  /** Shorter epitopes are skipped as not meaningful anchors. */
  const MinEpitopeLength: nat := 6

  predicate Qualifies(e: string) {
    |e| >= MinEpitopeLength
  }

  datatype EpitopeBest = EpitopeBest(identity: real, matched: seq<string>)

  /** Identity of epitope `e` inside the query `q`. */
  function EpitopeIdentity(q: string, e: string): real
    requires Qualifies(e)
  {
    Identity(HWDist(e, q), |e|)
  }

  lemma EpitopeIdentityRange(q: string, e: string)
    requires Qualifies(e)
    ensures 0.0 <= EpitopeIdentity(q, e) <= 1.0
    ensures EpitopeIdentity(q, e) == 1.0 <==> IsSubstring(e, q)
  {
    HWDistFacts(e, q);
    IdentityRange(HWDist(e, q), |e|);
  }

  /** The loop of `best_epitope_identity_edlib` over the remaining epitopes `eps`. */
  function MatchFrom(q: string, eps: seq<string>, acc: EpitopeBest): EpitopeBest
    decreases |eps|
  {
    if |eps| == 0 then acc
    else
      var e := eps[0];
      if !Qualifies(e) then MatchFrom(q, eps[1..], acc)
      else
        var d := EdlibAlign(e, q).editDistance;
        var next :=
          if d == -1 then acc
          else if Identity(d, |e|) > acc.identity then EpitopeBest(Identity(d, |e|), [e])
          else if Identity(d, |e|) == acc.identity then EpitopeBest(acc.identity, acc.matched + [e])
          else acc;
        if d != -1 && Identity(d, |e|) == 1.0 then EpitopeBest(1.0, [e])
        else MatchFrom(q, eps[1..], next)
  }

  function BestEpitopeIdentity(q: string, eps: seq<string>): EpitopeBest {
    MatchFrom(q, eps, EpitopeBest(0.0, []))
  }

  // ---------------------------------------------------------------------
  // Reference definitions, stated over the qualifying epitopes only

  function Max(a: real, b: real): real {
    if a >= b then a else b
  }

  /** Highest identity among the qualifying epitopes, 0.0 when there are none. */
  function MaxIdentity(q: string, eps: seq<string>): real {
    if |eps| == 0 then 0.0
    else if Qualifies(eps[0]) then Max(EpitopeIdentity(q, eps[0]), MaxIdentity(q, eps[1..]))
    else MaxIdentity(q, eps[1..])
  }

  /** The qualifying epitopes whose identity is `v`, in input order. */
  function TiedAt(q: string, eps: seq<string>, v: real): seq<string> {
    if |eps| == 0 then []
    else if Qualifies(eps[0]) && EpitopeIdentity(q, eps[0]) == v then [eps[0]] + TiedAt(q, eps[1..], v)
    else TiedAt(q, eps[1..], v)
  }

  /** The first qualifying epitope occurring verbatim in the query (identity 1.0). */
  function FirstPerfect(q: string, eps: seq<string>): Option<string> {
    if |eps| == 0 then None
    else if Qualifies(eps[0]) && EpitopeIdentity(q, eps[0]) == 1.0 then Some(eps[0])
    else FirstPerfect(q, eps[1..])
  }

  lemma {:induction false} MaxIdentityRange(q: string, eps: seq<string>)
    ensures 0.0 <= MaxIdentity(q, eps) <= 1.0
  {
    if |eps| > 0 {
      MaxIdentityRange(q, eps[1..]);
      if Qualifies(eps[0]) {
        EpitopeIdentityRange(q, eps[0]);
      }
    }
  }

  /** Outcome of the loop from an accumulator `(v, m)` with `v < 1.0` over
      epitopes none of which is perfect. */
  function Expected(q: string, eps: seq<string>, acc: EpitopeBest): EpitopeBest {
    var m := MaxIdentity(q, eps);
    if m > acc.identity then EpitopeBest(m, TiedAt(q, eps, m))
    else if m == acc.identity then EpitopeBest(acc.identity, acc.matched + TiedAt(q, eps, acc.identity))
    else acc
  }

  lemma {:induction false} TiedAtAbove(q: string, eps: seq<string>, v: real)
    requires v > MaxIdentity(q, eps)
    ensures TiedAt(q, eps, v) == []
  {
    if |eps| > 0 {
      TiedAtAbove(q, eps[1..], v);
    }
  }

  lemma {:induction false} MatchFromSpec(q: string, eps: seq<string>, acc: EpitopeBest)
    requires 0.0 <= acc.identity < 1.0
    ensures FirstPerfect(q, eps).Some? ==> MatchFrom(q, eps, acc) == EpitopeBest(1.0, [FirstPerfect(q, eps).value])
    ensures FirstPerfect(q, eps).None? ==> MatchFrom(q, eps, acc) == Expected(q, eps, acc)
    decreases |eps|
  {
    if |eps| > 0 {
      var e := eps[0];
      var rest := eps[1..];
      MaxIdentityRange(q, rest);
      if !Qualifies(e) {
        MatchFromSpec(q, rest, acc);
      } else {
        var id := EpitopeIdentity(q, e);
        EpitopeIdentityRange(q, e);
        if id < 1.0 {
          var next :=
            if id > acc.identity then EpitopeBest(id, [e])
            else if id == acc.identity then EpitopeBest(acc.identity, acc.matched + [e])
            else acc;
          MatchFromSpec(q, rest, next);
          var m := MaxIdentity(q, rest);
          if FirstPerfect(q, rest).None? {
            if m > id {
              TiedAtAbove(q, [e], m);
            } else if id > m {
              TiedAtAbove(q, rest, id);
              if id > acc.identity {
                assert TiedAt(q, eps, id) == [e];
              }
            } else if id > acc.identity {
              assert TiedAt(q, eps, id) == [e] + TiedAt(q, rest, id);
            } else if id == acc.identity {
              assert acc.matched + TiedAt(q, eps, id) == acc.matched + [e] + TiedAt(q, rest, id);
            }
          }
        }
      }
    }
  }

  /** What the matcher returns. The first qualifying epitope found verbatim
      in the query wins alone with identity 1.0; otherwise the result is the
      highest identity among qualifying epitopes (0.0 when there are none)
      with every qualifying epitope attaining it, in input order. */
  lemma BestEpitopeIdentitySpec(q: string, eps: seq<string>)
    ensures FirstPerfect(q, eps).Some? ==>
      BestEpitopeIdentity(q, eps) == EpitopeBest(1.0, [FirstPerfect(q, eps).value])
    ensures FirstPerfect(q, eps).None? ==>
      BestEpitopeIdentity(q, eps) == EpitopeBest(MaxIdentity(q, eps), TiedAt(q, eps, MaxIdentity(q, eps)))
  {
    MatchFromSpec(q, eps, EpitopeBest(0.0, []));
    MaxIdentityRange(q, eps);
  }

  /** With no epitope of length six or more, the result is (0.0, []). */
  lemma NoQualifyingEpitope(q: string, eps: seq<string>)
    requires forall i | 0 <= i < |eps| :: !Qualifies(eps[i])
    ensures BestEpitopeIdentity(q, eps) == EpitopeBest(0.0, [])
  {
    NoneQualify(q, eps);
    BestEpitopeIdentitySpec(q, eps);
  }

  lemma {:induction false} NoneQualify(q: string, eps: seq<string>)
    requires forall i | 0 <= i < |eps| :: !Qualifies(eps[i])
    ensures FirstPerfect(q, eps).None? && MaxIdentity(q, eps) == 0.0 && TiedAt(q, eps, 0.0) == []
  {
    if |eps| > 0 {
      NoneQualify(q, eps[1..]);
    }
  }
}
