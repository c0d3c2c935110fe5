/** The database sweep for one query (`check_cross_parallel`), the
    per-organism deduplication (`dedup_by_os`), and the two sorts of
    `predict_cross_allergen`: each query's hits by descending score, then
    all hits by query id and descending score. */
module Pipeline {
  import opened Results
  import opened Strings
  import opened Organism
  import opened Scoring
  import opened WindowScan
  import StableSort
  import KeepBest

  // ---------------------------------------------------------------------
  // `check_cross_parallel`

  /** `x` is what `check_one_target` reports for some record of `db`. */
  ghost predicate ReportedBy(query: string, db: seq<SeqRecord>, p: Params, x: MatchResult)
    requires ValidParams(p)
  {
    exists i | 0 <= i < |db| :: CheckOneTarget(query, db[i], p) == Ok(Some(x))
  }

  /** Some record of `db` makes `check_one_target` raise. */
  ghost predicate SomeRecordFails(query: string, db: seq<SeqRecord>, p: Params)
    requires ValidParams(p)
  {
    exists i | 0 <= i < |db| :: CheckOneTarget(query, db[i], p).Err?
  }

  /** The worker results kept in database order, falsy ones dropped; an
      exception in any worker ends the whole sweep. */
  function Sweep(query: string, db: seq<SeqRecord>, p: Params): (r: Result<seq<MatchResult>, ScanError>)
    requires ValidParams(p)
    ensures r.Ok? ==> |r.value| <= |db|
  {
    if |db| == 0 then Ok([])
    else
      match CheckOneTarget(query, db[0], p)
      case Err(e) => Err(e)
      case Ok(o) =>
        match Sweep(query, db[1..], p)
        case Err(e) => Err(e)
        case Ok(rest) => Ok((if o.Some? then [o.value] else []) + rest)
  }

  /** `check_cross_parallel(query_seq, db_records, win, id_thresh, local_enabled)`:
      the query's residues are upper-cased once for every worker. */
  function CheckCrossParallel(querySeq: string, db: seq<SeqRecord>, p: Params): Result<seq<MatchResult>, ScanError>
    requires ValidParams(p)
  {
    Sweep(Upper(querySeq), db, p)
  }

  /** The sweep fails exactly when some record fails. */
  lemma {:induction false} SweepFails(query: string, db: seq<SeqRecord>, p: Params)
    requires ValidParams(p)
    ensures Sweep(query, db, p).Err? <==> SomeRecordFails(query, db, p)
  {
    if |db| > 0 {
      SweepFails(query, db[1..], p);
      if SomeRecordFails(query, db[1..], p) {
        var i :| 0 <= i < |db[1..]| && CheckOneTarget(query, db[1..][i], p).Err?;
        assert CheckOneTarget(query, db[i + 1], p).Err?;
      }
      if SomeRecordFails(query, db, p) && CheckOneTarget(query, db[0], p).Ok? {
        var i :| 0 <= i < |db| && CheckOneTarget(query, db[i], p).Err?;
        assert CheckOneTarget(query, db[1..][i - 1], p).Err?;
      }
    }
  }

  /** A successful sweep holds exactly the results the records report. */
  lemma {:induction false} SweepMembers(query: string, db: seq<SeqRecord>, p: Params)
    requires ValidParams(p)
    requires Sweep(query, db, p).Ok?
    ensures forall x :: x in Sweep(query, db, p).value <==> ReportedBy(query, db, p, x)
  {
    if |db| > 0 {
      SweepMembers(query, db[1..], p);
      var head := CheckOneTarget(query, db[0], p);
      forall x | ReportedBy(query, db[1..], p, x)
        ensures ReportedBy(query, db, p, x)
      {
        var i :| 0 <= i < |db[1..]| && CheckOneTarget(query, db[1..][i], p) == Ok(Some(x));
        assert CheckOneTarget(query, db[i + 1], p) == Ok(Some(x));
      }
      forall x | ReportedBy(query, db, p, x)
        ensures x in Sweep(query, db, p).value
      {
        var i :| 0 <= i < |db| && CheckOneTarget(query, db[i], p) == Ok(Some(x));
        if i > 0 {
          assert CheckOneTarget(query, db[1..][i - 1], p) == Ok(Some(x));
        }
      }
    }
  }

  /** What `check_one_target` gives for each record of `db`, in database
      order. */
  function Outcomes(query: string, db: seq<SeqRecord>, p: Params): (r: seq<Result<Option<MatchResult>, ScanError>>)
    requires ValidParams(p)
    ensures |r| == |db|
    ensures forall i | 0 <= i < |db| :: r[i] == CheckOneTarget(query, db[i], p)
  {
    if |db| == 0 then [] else [CheckOneTarget(query, db[0], p)] + Outcomes(query, db[1..], p)
  }

  /** The reported values among `outcomes`, in order, one per report. */
  function Reports<T, E>(outcomes: seq<Result<Option<T>, E>>): (r: seq<T>)
    ensures |r| <= |outcomes|
  {
    if |outcomes| == 0 then []
    else
      (if outcomes[0].Ok? && outcomes[0].value.Some? then [outcomes[0].value.value] else [])
      + Reports(outcomes[1..])
  }

  /** A successful sweep is the per-record outcomes with the empty ones
      dropped: every report appears once per record that makes it, in
      database order. */
  lemma {:induction false} SweepIsFiltered(query: string, db: seq<SeqRecord>, p: Params)
    requires ValidParams(p)
    requires Sweep(query, db, p).Ok?
    ensures Sweep(query, db, p).value == Reports(Outcomes(query, db, p))
    ensures multiset(Sweep(query, db, p).value) == multiset(Reports(Outcomes(query, db, p)))
  {
    if |db| > 0 {
      SweepIsFiltered(query, db[1..], p);
      var os := Outcomes(query, db, p);
      assert os[1..] == Outcomes(query, db[1..], p);
    }
  }

  /** Raising the identity threshold can only drop results; which records
      fail does not depend on it. */
  lemma {:induction false} SweepThresholdMonotone(query: string, db: seq<SeqRecord>, p: Params, t: real)
    requires ValidParams(p) && t >= p.idThresh
    ensures Sweep(query, db, p).Err? <==> Sweep(query, db, p.(idThresh := t)).Err?
    ensures Sweep(query, db, p).Ok? ==>
      forall x | x in Sweep(query, db, p.(idThresh := t)).value :: x in Sweep(query, db, p).value
  {
    if |db| > 0 {
      SweepThresholdMonotone(query, db[1..], p, t);
      TargetThresholdMonotone(query, db[0], p, t);
    }
  }

  /** For one record: the outcome kind is the same under both thresholds,
      and a result reported under the higher one is reported under the lower. */
  lemma {:induction false} TargetThresholdMonotone(query: string, rec: SeqRecord, p: Params, t: real)
    requires ValidParams(p) && t >= p.idThresh
    ensures CheckOneTarget(query, rec, p).Err? <==> CheckOneTarget(query, rec, p.(idThresh := t)).Err?
    ensures var hi := CheckOneTarget(query, rec, p.(idThresh := t));
      hi.Ok? && hi.value.Some? ==> CheckOneTarget(query, rec, p) == hi
  {
    var target := Upper(rec.residues);
    if target != query && Accession(rec.id).Some? {
      var h := Scan(query, target, p.win);
      var acc := Accession(rec.id).value;
      BuildResultIgnoresThreshold(query, rec, target, acc, h, p, t);
    }
  }

  lemma {:induction false} BuildResultIgnoresThreshold(query: string, rec: SeqRecord, target: string, acc: string, h: WindowHit, p: Params, t: real)
    requires ValidParams(p)
    ensures BuildResult(query, rec, target, acc, h, p) == BuildResult(query, rec, target, acc, h, p.(idThresh := t))
  {
  }

  // ---------------------------------------------------------------------
  // `dedup_by_os`

  function OsOf(r: MatchResult): string {
    ExtractOs(r.description)
  }

  function ScoreOf(r: MatchResult): real {
    r.score
  }

  /** `dedup_by_os(results)`: the best-scoring result per organism, the
      first one on ties, organisms in order of first appearance. */
  function DedupByOs(rs: seq<MatchResult>): seq<MatchResult> {
    KeepBest.KeepBest(rs, OsOf, ScoreOf)
  }

  /** One entry per organism; every organism of the input is kept; each
      entry is an input result with the highest score for its organism
      (the earliest on ties); entries follow first appearance. */
  lemma {:induction false} DedupByOsSpec(rs: seq<MatchResult>)
    ensures KeepBest.KeysDistinct(DedupByOs(rs), OsOf)
    ensures KeepBest.Winners(rs, |rs|, DedupByOs(rs), OsOf, ScoreOf)
    ensures KeepBest.Covers(rs, |rs|, DedupByOs(rs), OsOf)
    ensures KeepBest.FirstSeenOrder(rs, DedupByOs(rs), OsOf)
  {
    KeepBest.KeepBestSpec(rs, OsOf, ScoreOf);
  }

  /** Every entry is one of the input results, and no input result with
      the same organism scores higher. */
  lemma {:induction false} DedupEntries(rs: seq<MatchResult>)
    ensures forall y | y in DedupByOs(rs) :: y in rs
    ensures forall y, x | y in DedupByOs(rs) && x in rs && OsOf(x) == OsOf(y) :: x.score <= y.score
  {
    var out := DedupByOs(rs);
    DedupByOsSpec(rs);
    forall y | y in out
      ensures y in rs && forall x | x in rs && OsOf(x) == OsOf(y) :: x.score <= y.score
    {
      var i :| 0 <= i < |out| && out[i] == y;
      assert KeepBest.IsWinning(rs, |rs|, out[i], OsOf, ScoreOf);
      var j :| KeepBest.IsWinner(rs, |rs|, j, OsOf, ScoreOf) && y == rs[j];
    }
  }

  /** Deduplicating twice changes nothing. */
  lemma {:induction false} DedupIdempotent(rs: seq<MatchResult>)
    ensures DedupByOs(DedupByOs(rs)) == DedupByOs(rs)
  {
    KeepBest.KeepBestIdempotent(rs, OsOf, ScoreOf);
  }

  // ---------------------------------------------------------------------
  // The sorts

  /** `key=lambda x: x["score"], reverse=True`: higher scores first. */
  predicate ByScoreDesc(a: MatchResult, b: MatchResult) {
    a.score >= b.score
  }

  lemma {:induction false} ByScoreDescIsPreorder()
    ensures StableSort.TotalPreorder(ByScoreDesc)
  {
  }

  function SortByScore(rs: seq<MatchResult>): seq<MatchResult> {
    StableSort.SortBy(rs, ByScoreDesc)
  }

  /** The per-query sort is a permutation, by descending score, and keeps
      the dedup order among equal scores. */
  lemma {:induction false} SortByScoreSpec(rs: seq<MatchResult>)
    ensures multiset(SortByScore(rs)) == multiset(rs)
    ensures forall i, j | 0 <= i < j < |SortByScore(rs)| :: SortByScore(rs)[i].score >= SortByScore(rs)[j].score
    ensures StableSort.Stable(SortByScore(rs), rs, ByScoreDesc)
  {
    ByScoreDescIsPreorder();
    StableSort.SortBySpec(rs, ByScoreDesc);
  }

  /** A hit tagged with the id of the query that produced it (`r['query_id']`). */
  datatype QueryMatch = QueryMatch(queryId: string, hit: MatchResult)

  function Tag(qid: string, rs: seq<MatchResult>): (r: seq<QueryMatch>)
    ensures |r| == |rs|
    ensures forall i | 0 <= i < |rs| :: r[i] == QueryMatch(qid, rs[i])
  {
    if |rs| == 0 then [] else [QueryMatch(qid, rs[0])] + Tag(qid, rs[1..])
  }

  /** `key=lambda x: (x['query_id'], -x['score'])`: query ids ascending
      (Python string order), then higher scores first. */
  predicate ByQueryThenScore(a: QueryMatch, b: QueryMatch) {
    StrLt(a.queryId, b.queryId) || (a.queryId == b.queryId && a.hit.score >= b.hit.score)
  }

  lemma {:induction false} ByQueryThenScoreIsPreorder()
    ensures StableSort.TotalPreorder(ByQueryThenScore)
  {
    forall a, b
      ensures ByQueryThenScore(a, b) || ByQueryThenScore(b, a)
    {
      StrLtTotal(a.queryId, b.queryId);
    }
    forall a, b, c | ByQueryThenScore(a, b) && ByQueryThenScore(b, c)
      ensures ByQueryThenScore(a, c)
    {
      if StrLt(a.queryId, b.queryId) && StrLt(b.queryId, c.queryId) {
        StrLtTransitive(a.queryId, b.queryId, c.queryId);
      }
    }
  }

  function SortByQuery(all: seq<QueryMatch>): seq<QueryMatch> {
    StableSort.SortBy(all, ByQueryThenScore)
  }

  /** The final sort is a permutation; query ids never decrease, and within
      one query id scores never increase. */
  lemma {:induction false} SortByQuerySpec(all: seq<QueryMatch>)
    ensures multiset(SortByQuery(all)) == multiset(all)
    ensures forall i, j | 0 <= i < j < |SortByQuery(all)| ::
      var a, b := SortByQuery(all)[i], SortByQuery(all)[j];
      !StrLt(b.queryId, a.queryId) && (a.queryId == b.queryId ==> a.hit.score >= b.hit.score)
  {
    var out := SortByQuery(all);
    ByQueryThenScoreIsPreorder();
    StableSort.SortBySpec(all, ByQueryThenScore);
    forall i, j | 0 <= i < j < |out|
      ensures !StrLt(out[j].queryId, out[i].queryId)
    {
      assert ByQueryThenScore(out[i], out[j]);
      if StrLt(out[j].queryId, out[i].queryId) {
        if StrLt(out[i].queryId, out[j].queryId) {
          StrLtTransitive(out[i].queryId, out[j].queryId, out[i].queryId);
        }
        StrLtIrreflexive(out[i].queryId);
      }
    }
  }

  // ---------------------------------------------------------------------
  // `predict_cross_allergen`

  /** The fixed sweep arguments: window 80, identity threshold 0.35, and
      the scoring defaults. */
  function PredictParams(localEnabled: bool, epitopes: EpitopeMap): (p: Params)
    ensures ValidParams(p)
  {
    Params(80, 0.35, localEnabled, epitopes, DefaultExactBonus, DefaultEpitopeFactor)
  }

  /** One query's contribution: its hits, one per organism, best first,
      tagged with the query id. */
  function QueryHits(query: SeqRecord, db: seq<SeqRecord>, p: Params): Result<seq<QueryMatch>, ScanError>
    requires ValidParams(p)
  {
    match CheckCrossParallel(query.residues, db, p)
    case Err(e) => Err(e)
    case Ok(rs) => Ok(Tag(query.id, SortByScore(DedupByOs(rs))))
  }

  /** `all_results` after every query, in query order. */
  function Collect(queries: seq<SeqRecord>, db: seq<SeqRecord>, p: Params): Result<seq<QueryMatch>, ScanError>
    requires ValidParams(p)
  {
    if |queries| == 0 then Ok([])
    else
      match QueryHits(queries[0], db, p)
      case Err(e) => Err(e)
      case Ok(hs) =>
        match Collect(queries[1..], db, p)
        case Err(e) => Err(e)
        case Ok(rest) => Ok(hs + rest)
  }

  /** The `id` column of the returned table: `item['id'].split('|')[1]`. */
  function Row(m: QueryMatch): QueryMatch {
    match Accession(m.hit.id)
    case Some(acc) => m.(hit := m.hit.(id := acc))
    case None => m
  }

  function Rows(ms: seq<QueryMatch>): (r: seq<QueryMatch>)
    ensures |r| == |ms|
    ensures forall i | 0 <= i < |ms| :: r[i] == Row(ms[i])
  {
    if |ms| == 0 then [] else [Row(ms[0])] + Rows(ms[1..])
  }

  /** `predict_cross_allergen`: `None` when no query has any hit, otherwise
      the table of all hits sorted by query id and descending score. */
  function PredictCrossAllergen(queries: seq<SeqRecord>, db: seq<SeqRecord>, localEnabled: bool, epitopes: EpitopeMap)
    : Result<Option<seq<QueryMatch>>, ScanError>
  {
    match Collect(queries, db, PredictParams(localEnabled, epitopes))
    case Err(e) => Err(e)
    case Ok(all) => if |all| == 0 then Ok(None) else Ok(Some(Rows(SortByQuery(all))))
  }

  /** A reported result keeps its record's id, which has an accession field. */
  lemma {:induction false} ReportedHasAccession(query: string, db: seq<SeqRecord>, p: Params, x: MatchResult)
    requires ValidParams(p) && ReportedBy(query, db, p, x)
    ensures Accession(x.id).Some?
  {
    var i :| 0 <= i < |db| && CheckOneTarget(query, db[i], p) == Ok(Some(x));
    Reported(query, db[i], p);
    ReportedWindow(query, db[i], p);
  }

  /** The deduplicated, sorted results are among the inputs and by
      descending score. */
  lemma {:induction false} SortedDedupMembers(rs: seq<MatchResult>)
    ensures var s := SortByScore(DedupByOs(rs));
      && (forall i | 0 <= i < |s| :: s[i] in rs)
      && (forall i, j | 0 <= i < j < |s| :: s[i].score >= s[j].score)
  {
    var d := DedupByOs(rs);
    var s := SortByScore(d);
    DedupEntries(rs);
    SortByScoreSpec(d);
    forall i | 0 <= i < |s|
      ensures s[i] in rs
    {
      assert s[i] in multiset(d);
    }
  }

  /** ... and name each organism at most once. */
  lemma {:induction false} SortedDedupDistinct(rs: seq<MatchResult>)
    ensures KeepBest.KeysDistinct(SortByScore(DedupByOs(rs)), OsOf)
  {
    DedupByOsSpec(rs);
    KeepBest.SortKeepsKeysDistinct(DedupByOs(rs), ByScoreDesc, OsOf);
  }

  /** The block built from a sweep's results: every entry carries the
      query id and is one of the results; no two entries share an organism;
      scores never increase along the block. */
  lemma {:induction false} BlockSpec(qid: string, rs: seq<MatchResult>)
    ensures var hs := Tag(qid, SortByScore(DedupByOs(rs)));
      && (forall i | 0 <= i < |hs| :: hs[i].queryId == qid && hs[i].hit in rs)
      && (forall i, j | 0 <= i < j < |hs| :: OsOf(hs[i].hit) != OsOf(hs[j].hit) && hs[i].hit.score >= hs[j].hit.score)
  {
    SortedDedupMembers(rs);
    SortedDedupDistinct(rs);
  }

  /** One query's block: every hit carries the query id and is reported by
      some database record; no two hits share an organism; scores never
      increase along the block. */
  lemma {:induction false} QueryHitsSpec(query: SeqRecord, db: seq<SeqRecord>, p: Params)
    requires ValidParams(p) && QueryHits(query, db, p).Ok?
    ensures var hs := QueryHits(query, db, p).value;
      && (forall i | 0 <= i < |hs| :: hs[i].queryId == query.id && ReportedBy(Upper(query.residues), db, p, hs[i].hit))
      && (forall i, j | 0 <= i < j < |hs| :: OsOf(hs[i].hit) != OsOf(hs[j].hit) && hs[i].hit.score >= hs[j].hit.score)
  {
    var q := Upper(query.residues);
    var rs := Sweep(q, db, p).value;
    assert QueryHits(query, db, p).value == Tag(query.id, SortByScore(DedupByOs(rs)));
    SweepMembers(q, db, p);
    BlockSpec(query.id, rs);
  }

  /** `x` comes from query `k`: it carries that query's id and some
      database record reports it for that query. */
  ghost predicate FromQuery(queries: seq<SeqRecord>, db: seq<SeqRecord>, p: Params, x: QueryMatch)
    requires ValidParams(p)
  {
    exists k | 0 <= k < |queries| :: x.queryId == queries[k].id && ReportedBy(Upper(queries[k].residues), db, p, x.hit)
  }

  lemma {:induction false} CollectMembers(queries: seq<SeqRecord>, db: seq<SeqRecord>, p: Params)
    requires ValidParams(p) && Collect(queries, db, p).Ok?
    ensures forall x | x in Collect(queries, db, p).value :: FromQuery(queries, db, p, x)
  {
    if |queries| > 0 {
      var hs := QueryHits(queries[0], db, p).value;
      var rest := Collect(queries[1..], db, p).value;
      QueryHitsSpec(queries[0], db, p);
      CollectMembers(queries[1..], db, p);
      forall x | x in hs + rest
        ensures FromQuery(queries, db, p, x)
      {
        if x in rest {
          var k :| 0 <= k < |queries[1..]| && x.queryId == queries[1..][k].id
            && ReportedBy(Upper(queries[1..][k].residues), db, p, x.hit);
          assert queries[1..][k] == queries[k + 1];
        } else {
          var i :| 0 <= i < |hs| && hs[i] == x;
        }
      }
    }
  }

  /** The row of a collected hit, with the `id` column cut to the accession. */
  ghost predicate RowOf(row: QueryMatch, x: QueryMatch) {
    Accession(x.hit.id).Some? && row == x.(hit := x.hit.(id := Accession(x.hit.id).value))
  }

  /** Every collected hit's id has an accession field. */
  lemma {:induction false} CollectedHaveAccession(queries: seq<SeqRecord>, db: seq<SeqRecord>, p: Params, all: seq<QueryMatch>)
    requires ValidParams(p)
    requires forall x | x in all :: FromQuery(queries, db, p, x)
    ensures forall x | x in all :: Accession(x.hit.id).Some?
  {
    forall x | x in all
      ensures Accession(x.hit.id).Some?
    {
      assert FromQuery(queries, db, p, x);
      var k :| 0 <= k < |queries| && x.queryId == queries[k].id && ReportedBy(Upper(queries[k].residues), db, p, x.hit);
      ReportedHasAccession(Upper(queries[k].residues), db, p, x.hit);
    }
  }

  /** The rows made from hits whose ids all have an accession: one row per
      hit, each the row of one of the hits. */
  lemma {:induction false} RowsOfHits(all: seq<QueryMatch>)
    requires forall x | x in all :: Accession(x.hit.id).Some?
    ensures var rows := Rows(SortByQuery(all));
      && |rows| == |all|
      && (forall i | 0 <= i < |rows| :: exists x | x in all :: RowOf(rows[i], x))
  {
    var sorted := SortByQuery(all);
    var rows := Rows(sorted);
    SortByQuerySpec(all);
    assert |sorted| == |multiset(all)|;
    forall i | 0 <= i < |rows|
      ensures exists x | x in all :: RowOf(rows[i], x)
    {
      assert sorted[i] in multiset(all);
      assert RowOf(rows[i], sorted[i]);
    }
  }

  /** The rows are ordered by query id and, within a query, by descending
      score. */
  lemma {:induction false} RowsOrdered(all: seq<QueryMatch>)
    ensures var rows := Rows(SortByQuery(all));
      forall i, j | 0 <= i < j < |rows| ::
        !StrLt(rows[j].queryId, rows[i].queryId)
        && (rows[i].queryId == rows[j].queryId ==> rows[i].hit.score >= rows[j].hit.score)
  {
    SortByQuerySpec(all);
  }

  /** `predict_cross_allergen` fails exactly when collecting fails and
      answers `None` exactly when no query has a hit. */
  lemma {:induction false} PredictCrossAllergenOutcome(queries: seq<SeqRecord>, db: seq<SeqRecord>, localEnabled: bool, epitopes: EpitopeMap)
    ensures var r := PredictCrossAllergen(queries, db, localEnabled, epitopes);
      var c := Collect(queries, db, PredictParams(localEnabled, epitopes));
      && (r.Err? <==> c.Err?)
      && (r == Ok(None) <==> c == Ok([]))
  {
  }

  /** A table from `predict_cross_allergen` has one row per collected hit,
      each produced by some query with its id cut to the accession (which
      always succeeds), ordered by query id and, within a query, by
      descending score. */
  lemma {:induction false} PredictCrossAllergenRows(queries: seq<SeqRecord>, db: seq<SeqRecord>, localEnabled: bool, epitopes: EpitopeMap)
    requires PredictCrossAllergen(queries, db, localEnabled, epitopes).Ok?
    requires PredictCrossAllergen(queries, db, localEnabled, epitopes).value.Some?
    ensures var p := PredictParams(localEnabled, epitopes);
      var rows := PredictCrossAllergen(queries, db, localEnabled, epitopes).value.value;
      var all := Collect(queries, db, p).value;
      && (forall x | x in all :: FromQuery(queries, db, p, x))
      && |rows| == |all|
      && (forall i | 0 <= i < |rows| :: exists x | x in all :: RowOf(rows[i], x))
      && (forall i, j | 0 <= i < j < |rows| ::
            !StrLt(rows[j].queryId, rows[i].queryId)
            && (rows[i].queryId == rows[j].queryId ==> rows[i].hit.score >= rows[j].hit.score))
  {
    var p := PredictParams(localEnabled, epitopes);
    var all := Collect(queries, db, p).value;
    assert PredictCrossAllergen(queries, db, localEnabled, epitopes).value.value == Rows(SortByQuery(all));
    CollectMembers(queries, db, p);
    CollectedHaveAccession(queries, db, p, all);
    RowsOfHits(all);
    RowsOrdered(all);
  }
}
