/** The evaluation script: each sample file holds a query and a target;
    the sample's score is what the one-record sweep reports for the pair
    (`evaluate_directory`), scores become 0/1 predictions against a
    threshold (`binarize_scores`), and `evaluate_all` joins a positive and
    a negative directory. */
module Evaluation {
  import opened Results
  import opened Strings
  import opened Scoring
  import opened WindowScan
  import opened Pipeline

  // ---------------------------------------------------------------------
  // `binarize_scores`

  /** `binarize_scores(scores, threshold)`: 1 for a score at or above the
      threshold, 0 below it. */
  function BinarizeScores(scores: seq<real>, threshold: real): (r: seq<int>)
    ensures |r| == |scores|
    ensures forall i | 0 <= i < |r| :: r[i] == 0 || r[i] == 1
  {
    if |scores| == 0 then []
    else [if scores[0] >= threshold then 1 else 0] + BinarizeScores(scores[1..], threshold)
  }

  /** A prediction is 1 exactly when its score reaches the threshold. */
  lemma {:induction false} BinarizeMeaning(scores: seq<real>, threshold: real)
    ensures forall i | 0 <= i < |scores| :: BinarizeScores(scores, threshold)[i] == 1 <==> scores[i] >= threshold
  {
    if |scores| > 0 {
      BinarizeMeaning(scores[1..], threshold);
      var r := BinarizeScores(scores, threshold);
      forall i | 0 < i < |scores|
        ensures r[i] == 1 <==> scores[i] >= threshold
      {
        assert r[i] == BinarizeScores(scores[1..], threshold)[i - 1];
        assert scores[i] == scores[1..][i - 1];
      }
    }
  }

  /** Raising the threshold never turns a 0 into a 1. */
  lemma {:induction false} BinarizeMonotone(scores: seq<real>, lo: real, hi: real)
    requires lo <= hi
    ensures forall i | 0 <= i < |scores| :: BinarizeScores(scores, hi)[i] <= BinarizeScores(scores, lo)[i]
  {
    BinarizeMeaning(scores, lo);
    BinarizeMeaning(scores, hi);
  }

  /** Binarising the positive and negative scores together is binarising
      each list and concatenating, as `evaluate_all` relies on. */
  lemma {:induction false} BinarizeAppend(a: seq<real>, b: seq<real>, threshold: real)
    ensures BinarizeScores(a + b, threshold) == BinarizeScores(a, threshold) + BinarizeScores(b, threshold)
  {
    if |a| > 0 {
      BinarizeAppend(a[1..], b, threshold);
      assert (a + b)[1..] == a[1..] + b;
    } else {
      assert a + b == b;
    }
  }

  // ---------------------------------------------------------------------
  // One sample

  /** A single-record sweep reports at most one result: the record's own,
      when `check_one_target` reports one; it fails exactly when that call
      fails. */
  lemma {:induction false} SingleSweep(query: string, rec: SeqRecord, p: Params)
    requires ValidParams(p)
    ensures var s := Sweep(query, [rec], p);
      var c := CheckOneTarget(query, rec, p);
      && (s.Err? <==> c.Err?)
      && (c.Ok? && c.value.None? ==> s == Ok([]))
      && (c.Ok? && c.value.Some? ==> s == Ok([c.value.value]))
  {
    assert [rec][1..] == [];
    assert Sweep(query, [], p) == Ok([]);
    var c := CheckOneTarget(query, rec, p);
    if c.Ok? && c.value.Some? {
      assert [c.value.value] + [] == [c.value.value];
    }
  }

  /** The per-sample score: `None` for a file without exactly two records
      (the file is skipped), otherwise the score of the first result of
      sweeping the first record's residues against the second record alone
      with window 80 and threshold 0.35, or 0.0 when nothing is returned. */
  function SampleScore(records: seq<SeqRecord>, epitopes: EpitopeMap, useEpitope: bool): Result<Option<real>, ScanError> {
    if |records| != 2 then Ok(None)
    else
      match CheckCrossParallel(records[0].residues, [records[1]], PredictParams(useEpitope, epitopes))
      case Err(e) => Err(e)
      case Ok(results) => Ok(Some(if |results| > 0 then results[0].score else 0.0))
  }

  /** `check_one_target` applied to the pair of a two-record sample. */
  function PairCheck(records: seq<SeqRecord>, epitopes: EpitopeMap, useEpitope: bool): Result<Option<MatchResult>, ScanError>
    requires |records| == 2
  {
    CheckOneTarget(Upper(records[0].residues), records[1], PredictParams(useEpitope, epitopes))
  }

  /** A two-record sample scores what `check_one_target` reports for the
      pair, 0.0 when it reports nothing, and fails exactly when it fails;
      any other sample is skipped. */
  lemma {:induction false} SampleScoreSpec(records: seq<SeqRecord>, epitopes: EpitopeMap, useEpitope: bool)
    ensures |records| != 2 <==> SampleScore(records, epitopes, useEpitope) == Ok(None)
    ensures |records| == 2 ==>
      var s := SampleScore(records, epitopes, useEpitope);
      var c := PairCheck(records, epitopes, useEpitope);
      && (s.Err? <==> c.Err?)
      && (c.Ok? && c.value.None? ==> s == Ok(Some(0.0)))
      && (c.Ok? && c.value.Some? ==> s == Ok(Some(c.value.value.score)))
  {
    if |records| == 2 {
      SingleSweep(Upper(records[0].residues), records[1], PredictParams(useEpitope, epitopes));
    }
  }

  /** A sample's score lies in [0, 1.1]: 0.0 without a match, at most the
      identity plus the exact-match bonus with one. */
  lemma {:induction false} SampleScoreBounds(records: seq<SeqRecord>, epitopes: EpitopeMap, useEpitope: bool)
    requires SampleScore(records, epitopes, useEpitope).Ok? && SampleScore(records, epitopes, useEpitope).value.Some?
    ensures 0.0 <= SampleScore(records, epitopes, useEpitope).value.value <= 1.0 + DefaultExactBonus
  {
    SampleScoreSpec(records, epitopes, useEpitope);
    var c := PairCheck(records, epitopes, useEpitope);
    if c.value.Some? {
      ScoreBounds(Upper(records[0].residues), records[1], PredictParams(useEpitope, epitopes));
    }
  }

  /** Without epitope matching a reported pair scores at least its
      identity, so at least the 0.35 threshold. */
  lemma {:induction false} ReportedScoreAtLeastThreshold(query: string, rec: SeqRecord, epitopes: EpitopeMap)
    requires CheckOneTarget(query, rec, PredictParams(false, epitopes)).Ok?
    requires CheckOneTarget(query, rec, PredictParams(false, epitopes)).value.Some?
    ensures CheckOneTarget(query, rec, PredictParams(false, epitopes)).value.value.score >= 0.35
  {
    var p := PredictParams(false, epitopes);
    Reported(query, rec, p);
    var target := Upper(rec.residues);
    var m := BuildResult(query, rec, target, Accession(rec.id).value, Scan(query, target, p.win), p);
    assert m.identityAdjusted == m.identity >= 0.35;
  }

  /** With epitopes off and the threshold at the identity cut-off 0.35, a
      two-record sample is predicted positive exactly when the sweep
      returned a match for it. */
  lemma {:induction false} PredictionIsMatch(records: seq<SeqRecord>, epitopes: EpitopeMap)
    requires |records| == 2 && SampleScore(records, epitopes, false).Ok?
    ensures var s := SampleScore(records, epitopes, false).value.value;
      var c := PairCheck(records, epitopes, false);
      BinarizeScores([s], 0.35) == [1] <==> c.value.Some?
  {
    SampleScoreSpec(records, epitopes, false);
    var s := SampleScore(records, epitopes, false).value.value;
    BinarizeMeaning([s], 0.35);
    if PairCheck(records, epitopes, false).value.Some? {
      ReportedScoreAtLeastThreshold(Upper(records[0].residues), records[1], epitopes);
    }
  }

  // ---------------------------------------------------------------------
  // `evaluate_directory`

  /** The two parallel lists `evaluate_directory` returns. */
  datatype Labelled = Labelled(yTrue: seq<int>, yScore: seq<real>)

  /** `evaluate_directory(samples, classLabel, use_epitope)` over the already
      parsed sample files, in file order: skipped samples add nothing,
      every other one adds `classLabel` (Python's `label`) and its score; a
      failing sample ends the evaluation. */
  function EvaluateDirectory(samples: seq<seq<SeqRecord>>, classLabel: int, epitopes: EpitopeMap, useEpitope: bool): Result<Labelled, ScanError> {
    if |samples| == 0 then Ok(Labelled([], []))
    else
      match SampleScore(samples[0], epitopes, useEpitope)
      case Err(e) => Err(e)
      case Ok(o) =>
        match EvaluateDirectory(samples[1..], classLabel, epitopes, useEpitope)
        case Err(e) => Err(e)
        case Ok(rest) =>
          if o.None? then Ok(rest)
          else Ok(Labelled([classLabel] + rest.yTrue, [o.value] + rest.yScore))
  }

  /** The samples that are not skipped: those with exactly two records. */
  function Pairs(samples: seq<seq<SeqRecord>>): (r: seq<seq<SeqRecord>>)
    ensures forall k | 0 <= k < |r| :: |r[k]| == 2
  {
    if |samples| == 0 then []
    else (if |samples[0]| == 2 then [samples[0]] else []) + Pairs(samples[1..])
  }

  /** Evaluating a directory fails exactly when some sample's score does. */
  lemma {:induction false} EvaluateDirectoryFails(samples: seq<seq<SeqRecord>>, classLabel: int, epitopes: EpitopeMap, useEpitope: bool)
    ensures EvaluateDirectory(samples, classLabel, epitopes, useEpitope).Err?
      <==> exists k | 0 <= k < |samples| :: SampleScore(samples[k], epitopes, useEpitope).Err?
  {
    if |samples| > 0 {
      EvaluateDirectoryFails(samples[1..], classLabel, epitopes, useEpitope);
      if exists k | 0 <= k < |samples[1..]| :: SampleScore(samples[1..][k], epitopes, useEpitope).Err? {
        var k :| 0 <= k < |samples[1..]| && SampleScore(samples[1..][k], epitopes, useEpitope).Err?;
        assert SampleScore(samples[k + 1], epitopes, useEpitope).Err?;
      }
      if exists k | 0 <= k < |samples| :: SampleScore(samples[k], epitopes, useEpitope).Err? {
        var k :| 0 <= k < |samples| && SampleScore(samples[k], epitopes, useEpitope).Err?;
        if k > 0 {
          assert samples[1..][k - 1] == samples[k];
        }
      }
    }
  }

  /** A successful evaluation has one label and one score per two-record
      sample, and every label is `classLabel`. */
  lemma {:induction false} EvaluateDirectoryShape(samples: seq<seq<SeqRecord>>, classLabel: int, epitopes: EpitopeMap, useEpitope: bool)
    requires EvaluateDirectory(samples, classLabel, epitopes, useEpitope).Ok?
    ensures var out := EvaluateDirectory(samples, classLabel, epitopes, useEpitope).value;
      && |out.yTrue| == |out.yScore| == |Pairs(samples)|
      && (forall k | 0 <= k < |out.yTrue| :: out.yTrue[k] == classLabel)
  {
    if |samples| > 0 {
      EvaluateDirectoryShape(samples[1..], classLabel, epitopes, useEpitope);
      var o := SampleScore(samples[0], epitopes, useEpitope).value;
      SampleScoreSpec(samples[0], epitopes, useEpitope);
      var out := EvaluateDirectory(samples, classLabel, epitopes, useEpitope).value;
      var rest := EvaluateDirectory(samples[1..], classLabel, epitopes, useEpitope).value;
      if o.Some? {
        assert out.yTrue == [classLabel] + rest.yTrue;
      }
    }
  }

  /** One step of `evaluate_directory`: the first sample's score is put in
      front of the rest's lists unless the sample is skipped. */
  lemma {:induction false} EvaluateDirectoryStep(samples: seq<seq<SeqRecord>>, classLabel: int, epitopes: EpitopeMap, useEpitope: bool)
    requires |samples| > 0 && EvaluateDirectory(samples, classLabel, epitopes, useEpitope).Ok?
    ensures var out := EvaluateDirectory(samples, classLabel, epitopes, useEpitope);
      var rest := EvaluateDirectory(samples[1..], classLabel, epitopes, useEpitope);
      var o := SampleScore(samples[0], epitopes, useEpitope);
      && o.Ok? && rest.Ok?
      && (o.value.None? ==> out == rest && |samples[0]| != 2)
      && (o.value.Some? ==> out.value.yScore == [o.value.value] + rest.value.yScore && |samples[0]| == 2)
  {
    SampleScoreSpec(samples[0], epitopes, useEpitope);
  }

  /** `ys[k]` is what `score` gives `ps[k]`, for every `k`. */
  ghost predicate ScoredBy<S>(score: S -> Result<Option<real>, ScanError>, ps: seq<S>, ys: seq<real>) {
    |ys| == |ps| && forall k | 0 <= k < |ps| :: score(ps[k]) == Ok(Some(ys[k]))
  }

  lemma {:induction false} ScoredByCons<S>(score: S -> Result<Option<real>, ScanError>, s: S, ps: seq<S>, y: real, ys: seq<real>)
    requires score(s) == Ok(Some(y)) && ScoredBy(score, ps, ys)
    ensures ScoredBy(score, [s] + ps, [y] + ys)
  {
    forall k | 0 < k < |ps| + 1
      ensures score(([s] + ps)[k]) == Ok(Some(([y] + ys)[k]))
    {
      assert ([s] + ps)[k] == ps[k - 1] && ([y] + ys)[k] == ys[k - 1];
    }
  }

  /** The per-sample score as a function value. */
  function Scorer(epitopes: EpitopeMap, useEpitope: bool): seq<SeqRecord> -> Result<Option<real>, ScanError> {
    records => SampleScore(records, epitopes, useEpitope)
  }

  /** In a successful evaluation the `k`-th score is the score of the
      `k`-th two-record sample. */
  lemma {:induction false} EvaluateDirectoryScores(samples: seq<seq<SeqRecord>>, classLabel: int, epitopes: EpitopeMap, useEpitope: bool)
    requires EvaluateDirectory(samples, classLabel, epitopes, useEpitope).Ok?
    ensures var out := EvaluateDirectory(samples, classLabel, epitopes, useEpitope).value;
      var ps := Pairs(samples);
      && |out.yScore| == |ps|
      && (forall k | 0 <= k < |ps| :: SampleScore(ps[k], epitopes, useEpitope) == Ok(Some(out.yScore[k])))
  {
    PairsScored(samples, classLabel, epitopes, useEpitope);
    var ps := Pairs(samples);
    var ys := EvaluateDirectory(samples, classLabel, epitopes, useEpitope).value.yScore;
    forall k | 0 <= k < |ps|
      ensures SampleScore(ps[k], epitopes, useEpitope) == Ok(Some(ys[k]))
    {
      assert Scorer(epitopes, useEpitope)(ps[k]) == Ok(Some(ys[k]));
    }
  }

  lemma {:induction false} PairsScored(samples: seq<seq<SeqRecord>>, classLabel: int, epitopes: EpitopeMap, useEpitope: bool)
    requires EvaluateDirectory(samples, classLabel, epitopes, useEpitope).Ok?
    ensures ScoredBy(Scorer(epitopes, useEpitope), Pairs(samples), EvaluateDirectory(samples, classLabel, epitopes, useEpitope).value.yScore)
  {
    if |samples| > 0 {
      EvaluateDirectoryStep(samples, classLabel, epitopes, useEpitope);
      PairsScored(samples[1..], classLabel, epitopes, useEpitope);
      var o := SampleScore(samples[0], epitopes, useEpitope).value;
      var ys := EvaluateDirectory(samples[1..], classLabel, epitopes, useEpitope).value.yScore;
      if o.Some? {
        assert Pairs(samples) == [samples[0]] + Pairs(samples[1..]);
        assert Scorer(epitopes, useEpitope)(samples[0]) == Ok(Some(o.value));
        ScoredByCons(Scorer(epitopes, useEpitope), samples[0], Pairs(samples[1..]), o.value, ys);
      } else {
        assert Pairs(samples) == Pairs(samples[1..]);
      }
    }
  }

  // ---------------------------------------------------------------------
  // `evaluate_all`

  /** The threshold the evaluation script passes to `evaluate_all`. */
  const DefaultThreshold: real := 0.35

  /** Labels, scores and 0/1 predictions over both directories. */
  datatype Evaluation = Evaluation(yTrue: seq<int>, yScore: seq<real>, yPred: seq<int>)

  /** `evaluate_all(pos, neg, use_epitope, threshold)` up to the metrics:
      the positive directory evaluated with label 1, then the negative one
      with label 0, their lists concatenated and the scores binarised. */
  function EvaluateAll(pos: seq<seq<SeqRecord>>, neg: seq<seq<SeqRecord>>, epitopes: EpitopeMap, useEpitope: bool, threshold: real)
    : Result<Evaluation, ScanError>
  {
    match EvaluateDirectory(pos, 1, epitopes, useEpitope)
    case Err(e) => Err(e)
    case Ok(p) =>
      match EvaluateDirectory(neg, 0, epitopes, useEpitope)
      case Err(e) => Err(e)
      case Ok(n) =>
        Ok(Evaluation(p.yTrue + n.yTrue, p.yScore + n.yScore, BinarizeScores(p.yScore + n.yScore, threshold)))
  }

  /** The evaluation fails exactly when a sample of either directory fails. */
  lemma {:induction false} EvaluateAllFails(pos: seq<seq<SeqRecord>>, neg: seq<seq<SeqRecord>>, epitopes: EpitopeMap, useEpitope: bool, threshold: real)
    ensures EvaluateAll(pos, neg, epitopes, useEpitope, threshold).Err?
      <==> ((exists k | 0 <= k < |pos| :: SampleScore(pos[k], epitopes, useEpitope).Err?)
            || (exists k | 0 <= k < |neg| :: SampleScore(neg[k], epitopes, useEpitope).Err?))
  {
    EvaluateDirectoryFails(pos, 1, epitopes, useEpitope);
    EvaluateDirectoryFails(neg, 0, epitopes, useEpitope);
  }

  /** One label per two-record sample, positives first: 1 on the
      positives, 0 on the negatives. */
  lemma {:induction false} EvaluateAllLabels(pos: seq<seq<SeqRecord>>, neg: seq<seq<SeqRecord>>, epitopes: EpitopeMap, useEpitope: bool, threshold: real)
    requires EvaluateAll(pos, neg, epitopes, useEpitope, threshold).Ok?
    ensures var out := EvaluateAll(pos, neg, epitopes, useEpitope, threshold).value;
      var ps := Pairs(pos) + Pairs(neg);
      && |out.yTrue| == |ps|
      && (forall k | 0 <= k < |ps| :: out.yTrue[k] == (if k < |Pairs(pos)| then 1 else 0))
  {
    var p := EvaluateDirectory(pos, 1, epitopes, useEpitope).value;
    var n := EvaluateDirectory(neg, 0, epitopes, useEpitope).value;
    EvaluateDirectoryShape(pos, 1, epitopes, useEpitope);
    EvaluateDirectoryShape(neg, 0, epitopes, useEpitope);
    var ps := Pairs(pos) + Pairs(neg);
    forall k | |Pairs(pos)| <= k < |ps|
      ensures (p.yTrue + n.yTrue)[k] == 0
    {
      assert (p.yTrue + n.yTrue)[k] == n.yTrue[k - |Pairs(pos)|];
    }
  }

  /** One score and one prediction per two-record sample, positives first:
      the `k`-th score is that sample's own score, and its prediction is 1
      exactly when the score reaches the threshold. */
  lemma {:induction false} EvaluateAllScores(pos: seq<seq<SeqRecord>>, neg: seq<seq<SeqRecord>>, epitopes: EpitopeMap, useEpitope: bool, threshold: real)
    requires EvaluateAll(pos, neg, epitopes, useEpitope, threshold).Ok?
    ensures var out := EvaluateAll(pos, neg, epitopes, useEpitope, threshold).value;
      var ps := Pairs(pos) + Pairs(neg);
      && |out.yScore| == |out.yPred| == |ps|
      && (forall k | 0 <= k < |ps| :: SampleScore(ps[k], epitopes, useEpitope) == Ok(Some(out.yScore[k])))
      && (forall k | 0 <= k < |ps| :: out.yPred[k] == 1 <==> out.yScore[k] >= threshold)
  {
    var p := EvaluateDirectory(pos, 1, epitopes, useEpitope).value;
    var n := EvaluateDirectory(neg, 0, epitopes, useEpitope).value;
    var score := Scorer(epitopes, useEpitope);
    PairsScored(pos, 1, epitopes, useEpitope);
    PairsScored(neg, 0, epitopes, useEpitope);
    ScoredByAppend(score, Pairs(pos), p.yScore, Pairs(neg), n.yScore);
    BinarizeMeaning(p.yScore + n.yScore, threshold);
    var ps := Pairs(pos) + Pairs(neg);
    forall k | 0 <= k < |ps|
      ensures SampleScore(ps[k], epitopes, useEpitope) == Ok(Some((p.yScore + n.yScore)[k]))
    {
      assert score(ps[k]) == Ok(Some((p.yScore + n.yScore)[k]));
    }
  }

  lemma {:induction false} ScoredByAppend<S>(score: S -> Result<Option<real>, ScanError>, ps: seq<S>, ys: seq<real>, qs: seq<S>, zs: seq<real>)
    requires ScoredBy(score, ps, ys) && ScoredBy(score, qs, zs)
    ensures ScoredBy(score, ps + qs, ys + zs)
  {
    forall k | |ps| <= k < |ps| + |qs|
      ensures score((ps + qs)[k]) == Ok(Some((ys + zs)[k]))
    {
      assert (ps + qs)[k] == qs[k - |ps|] && (ys + zs)[k] == zs[k - |ps|];
    }
  }

  /** With epitopes off at the script's threshold, a sample is predicted
      positive exactly when `check_one_target` reported a match for its
      pair. */
  lemma {:induction false} EvaluateAllPredictionIsMatch(pos: seq<seq<SeqRecord>>, neg: seq<seq<SeqRecord>>, epitopes: EpitopeMap)
    requires EvaluateAll(pos, neg, epitopes, false, DefaultThreshold).Ok?
    ensures var out := EvaluateAll(pos, neg, epitopes, false, DefaultThreshold).value;
      var ps := Pairs(pos) + Pairs(neg);
      && |out.yPred| == |ps|
      && forall k | 0 <= k < |ps| ::
           PairCheck(ps[k], epitopes, false).Ok?
           && (out.yPred[k] == 1 <==> PairCheck(ps[k], epitopes, false).value.Some?)
  {
    EvaluateAllScores(pos, neg, epitopes, false, DefaultThreshold);
    var out := EvaluateAll(pos, neg, epitopes, false, DefaultThreshold).value;
    var ps := Pairs(pos) + Pairs(neg);
    forall k | 0 <= k < |ps|
      ensures PairCheck(ps[k], epitopes, false).Ok?
      ensures out.yPred[k] == 1 <==> PairCheck(ps[k], epitopes, false).value.Some?
    {
      var s := out.yScore[k];
      SampleScoreSpec(ps[k], epitopes, false);
      PredictionIsMatch(ps[k], epitopes);
      BinarizeMeaning([s], DefaultThreshold);
    }
  }
}
