/** `check_one_target`: score one database protein against the query.

    The target's residues are upper-cased; the query itself is skipped; the
    accession is the second `|`-separated field of the record id. The best
    sliding window is found with the edlib scan. Below the identity
    threshold the target is dropped. Otherwise the identity may be damped
    when epitope matching is enabled and no epitope of the target occurs in
    the best window. A bonus is added when the two sequences share an exact
    8-mer, and the hit counts are recorded. */
module Scoring {
  import opened Results
  import opened Strings
  import opened WindowScan
  import opened Kmers

  /** One parsed FASTA record of the database. */
  datatype SeqRecord = SeqRecord(id: string, description: string, residues: string)

  datatype MatchMode = GlobalEpitopeAdjusted | GlobalNoEpitope

  /** The dictionary `check_one_target` returns. */
  datatype MatchResult = MatchResult(
    id: string,
    description: string,
    identity: real,
    identityAdjusted: real,
    hasExact8mer: bool,
    score: real,
    matchMode: MatchMode,
    windowContainsEpitope: bool,
    bestWindowSeq: string,
    windowHitCount: nat,
    eightmerHitCount: nat)

  /** `rec.id.split("|")[1]` raises IndexError on an id without `|`. */
  datatype ScanError = MissingAccession(id: string)

  /** The keyword defaults of `check_one_target`. */
  const DefaultExactBonus: real := 0.1
  const DefaultEpitopeFactor: real := 0.8

  /** Epitope catalogue: accession to epitope strings (`epitope_map.json`). */
  type EpitopeMap = map<string, seq<string>>

  /** `id.split("|")[1]`, or nothing when there is no second field. */
  function Accession(id: string): (r: Option<string>)
    ensures r.Some? <==> '|' in id
    ensures r.Some? ==> '|' !in r.value
  {
    SplitHasSecond(id, '|');
    var parts := Split(id, '|');
    if |parts| >= 2 then Some(parts[1]) else None
  }

  /** `epitope_map.get(accession, [])` */
  function EpitopesOf(m: EpitopeMap, acc: string): seq<string> {
    if acc in m then m[acc] else []
  }

  /** `any(epitope in window for epitope in epitopes)` */
  predicate AnyEpitopeIn(epitopes: seq<string>, window: string) {
    exists e | e in epitopes :: IsSubstring(e, window)
  }

  /** The arguments that stay fixed across one database sweep. */
  datatype Params = Params(
    win: nat,
    idThresh: real,
    localEnabled: bool,
    epitopes: EpitopeMap,
    exactBonus: real,
    epitopeFactor: real)

  predicate ValidParams(p: Params) {
    p.win > 0
  }

  /** The result for a target that passed the threshold, given its best window. */
  function BuildResult(query: string, rec: SeqRecord, target: string, acc: string, h: WindowHit, p: Params): MatchResult
    requires ValidParams(p)
  {
    var window := PySlice(query, h.start, h.start + p.win);
    var contains := p.localEnabled && AnyEpitopeIn(EpitopesOf(p.epitopes, acc), window);
    var adjusted := if !p.localEnabled || contains then h.identity else h.identity * p.epitopeFactor;
    var exact := HasExact8mer(query, target);
    MatchResult(
      id := rec.id,
      description := rec.description,
      identity := h.identity,
      identityAdjusted := adjusted,
      hasExact8mer := exact,
      score := adjusted + (if exact then p.exactBonus else 0.0),
      matchMode := if p.localEnabled then GlobalEpitopeAdjusted else GlobalNoEpitope,
      windowContainsEpitope := contains,
      bestWindowSeq := window,
      windowHitCount := CountFrom(window, target, 0),
      eightmerHitCount := EightmerHitCount(query, target))
  }

  /** `check_one_target((query, rec, win, id_thresh, local_enabled), bonus, factor)`:
      `Ok(None)` for a skipped or sub-threshold target, `Err` for an id
      without an accession field. */
  function CheckOneTarget(query: string, rec: SeqRecord, p: Params): Result<Option<MatchResult>, ScanError>
    requires ValidParams(p)
  {
    var target := Upper(rec.residues);
    if target == query then Ok(None)
    else
      match Accession(rec.id)
      case None => Err(MissingAccession(rec.id))
      case Some(acc) =>
        var h := Scan(query, target, p.win);
        if h.identity < p.idThresh then Ok(None)
        else Ok(Some(BuildResult(query, rec, target, acc, h, p)))
  }

  // ---------------------------------------------------------------------
  // Properties

  /** A reported result is the one built from the scan's best window. */
  lemma Reported(query: string, rec: SeqRecord, p: Params)
    requires ValidParams(p)
    requires CheckOneTarget(query, rec, p).Ok? && CheckOneTarget(query, rec, p).value.Some?
    ensures Upper(rec.residues) != query && Accession(rec.id).Some?
    ensures Scan(query, Upper(rec.residues), p.win).identity >= p.idThresh
    ensures CheckOneTarget(query, rec, p).value.value
      == BuildResult(query, rec, Upper(rec.residues), Accession(rec.id).value, Scan(query, Upper(rec.residues), p.win), p)
  {
  }

  /** The reasons a target yields no result and the reason it fails. */
  lemma CheckOneTargetOutcome(query: string, rec: SeqRecord, p: Params)
    requires ValidParams(p)
    ensures var r := CheckOneTarget(query, rec, p);
      var target := Upper(rec.residues);
      && (r.Err? <==> target != query && '|' !in rec.id)
      && (r == Ok(None) <==>
            target == query || ('|' in rec.id && Scan(query, target, p.win).identity < p.idThresh))
  {
  }

  /** A reported target reached the threshold; its window is the one the
      scan found, recovered with Python's slice; the record's id and
      description are carried over. */
  lemma ReportedWindow(query: string, rec: SeqRecord, p: Params)
    requires ValidParams(p)
    requires CheckOneTarget(query, rec, p).Ok? && CheckOneTarget(query, rec, p).value.Some?
    ensures var m := CheckOneTarget(query, rec, p).value.value;
      var h := Scan(query, Upper(rec.residues), p.win);
      && m.id == rec.id && m.description == rec.description
      && m.identity == h.identity && p.idThresh <= m.identity <= 1.0
      && (h.start != -1 ==> 0 <= h.start <= |query| - p.win && m.bestWindowSeq == query[h.start..h.start + p.win])
      && (p.idThresh > 0.0 ==> h.start != -1)
  {
    ScanSpec(query, Upper(rec.residues), p.win);
  }

  /** When every window scores 0.0 the start stays at -1 and the slice
      `query[-1:win-1]` is empty when the query is at least `win` long, and
      the query's last residue otherwise. Only a threshold at or below 0.0
      lets such a target through. */
  lemma ZeroIdentityWindow(query: string, win: nat)
    requires win > 0 && |query| > 0
    ensures |query| >= win ==> PySlice(query, -1, -1 + win) == []
    ensures |query| < win ==> PySlice(query, -1, -1 + win) == [query[|query| - 1]]
  {
  }

  /** The score is the adjusted identity plus the bonus exactly when the
      8-mer flag is set; the 8-mer hit count is positive exactly then. */
  lemma ScoreComposition(query: string, rec: SeqRecord, p: Params)
    requires ValidParams(p)
    requires CheckOneTarget(query, rec, p).Ok? && CheckOneTarget(query, rec, p).value.Some?
    ensures var m := CheckOneTarget(query, rec, p).value.value;
      && m.hasExact8mer == HasExact8mer(query, Upper(rec.residues))
      && m.score == m.identityAdjusted + (if m.hasExact8mer then p.exactBonus else 0.0)
      && (m.eightmerHitCount > 0 <==> m.hasExact8mer)
      && m.windowHitCount == CountFrom(m.bestWindowSeq, Upper(rec.residues), 0)
      && (m.windowHitCount > 0 <==> IsSubstring(m.bestWindowSeq, Upper(rec.residues)))
  {
    EightmerCountIffFlag(query, Upper(rec.residues));
    var m := CheckOneTarget(query, rec, p).value.value;
    SubstringIffCount(m.bestWindowSeq, Upper(rec.residues));
  }

  /** With epitope matching off the identity is not adjusted; with it on,
      the identity is kept when some epitope of the accession lies in the
      window and multiplied by the factor otherwise, so an accession
      without catalogued epitopes is always damped. */
  lemma BuildResultEpitopes(query: string, rec: SeqRecord, target: string, acc: string, h: WindowHit, p: Params)
    requires ValidParams(p)
    ensures var m := BuildResult(query, rec, target, acc, h, p);
      && (m.matchMode == GlobalEpitopeAdjusted <==> p.localEnabled)
      && (!p.localEnabled ==> !m.windowContainsEpitope && m.identityAdjusted == m.identity)
      && (p.localEnabled ==>
            && (m.windowContainsEpitope <==> AnyEpitopeIn(EpitopesOf(p.epitopes, acc), m.bestWindowSeq))
            && m.identityAdjusted == (if m.windowContainsEpitope then m.identity else m.identity * p.epitopeFactor))
      && (p.localEnabled && acc !in p.epitopes ==>
            !m.windowContainsEpitope && m.identityAdjusted == m.identity * p.epitopeFactor)
  {
  }

  /** With a factor in [0, 1] and a non-negative bonus, the score of a
      result lies in [0, 1 + bonus] and never exceeds the unadjusted
      identity plus bonus. */
  lemma BuildResultBounds(query: string, rec: SeqRecord, target: string, acc: string, h: WindowHit, p: Params)
    requires ValidParams(p) && 0.0 <= p.epitopeFactor <= 1.0 && 0.0 <= p.exactBonus
    requires 0.0 <= h.identity <= 1.0
    ensures var m := BuildResult(query, rec, target, acc, h, p);
      && 0.0 <= m.identityAdjusted <= m.identity
      && 0.0 <= m.score <= m.identity + p.exactBonus <= 1.0 + p.exactBonus
  {
    var x, f := h.identity, p.epitopeFactor;
    Damp(x, f);
    assert 0.0 <= x * f <= x;
    var m := BuildResult(query, rec, target, acc, h, p);
    assert m.identity == x;
    if !p.localEnabled || m.windowContainsEpitope {
      assert m.identityAdjusted == h.identity;
    } else {
      assert m.identityAdjusted == x * f;
    }
    assert 0.0 <= m.identityAdjusted <= m.identity;
  }

  /** The bounds above hold for every reported target. */
  lemma ScoreBounds(query: string, rec: SeqRecord, p: Params)
    requires ValidParams(p) && 0.0 <= p.epitopeFactor <= 1.0 && 0.0 <= p.exactBonus
    requires CheckOneTarget(query, rec, p).Ok? && CheckOneTarget(query, rec, p).value.Some?
    ensures var m := CheckOneTarget(query, rec, p).value.value;
      && 0.0 <= m.identityAdjusted <= m.identity
      && 0.0 <= m.score <= m.identity + p.exactBonus <= 1.0 + p.exactBonus
  {
    Reported(query, rec, p);
    var target := Upper(rec.residues);
    ScanIdentityRange(query, target, p.win);
    BuildResultBounds(query, rec, target, Accession(rec.id).value, Scan(query, target, p.win), p);
  }

  /** Multiplying by a factor in [0, 1] can only lower a non-negative
      identity, and leaves it unchanged only at 0 or with factor 1. */
  lemma Damp(x: real, f: real)
    requires 0.0 <= x && 0.0 <= f <= 1.0
    ensures 0.0 <= x * f <= x
    ensures x * f == x <==> x == 0.0 || f == 1.0
  {
    if x > 0.0 && f < 1.0 {
      assert x * f < x * 1.0;
    }
  }

  /** Switching epitope matching on changes only the adjustment, the flag
      and the mode of a result; its score can only go down, and stays the
      same exactly when an epitope lies in the window, the identity is 0 or
      the factor is 1. */
  lemma BuildResultToggle(query: string, rec: SeqRecord, target: string, acc: string, h: WindowHit, p: Params)
    requires ValidParams(p) && 0.0 <= p.epitopeFactor <= 1.0 && 0.0 <= h.identity
    ensures var a := BuildResult(query, rec, target, acc, h, p.(localEnabled := true));
      var b := BuildResult(query, rec, target, acc, h, p.(localEnabled := false));
      && a.identity == b.identity
      && a.bestWindowSeq == b.bestWindowSeq
      && a.windowHitCount == b.windowHitCount
      && a.eightmerHitCount == b.eightmerHitCount
      && a.hasExact8mer == b.hasExact8mer
      && a.score <= b.score
      && (a.score == b.score <==> a.windowContainsEpitope || a.identity == 0.0 || p.epitopeFactor == 1.0)
  {
    Damp(h.identity, p.epitopeFactor);
    var a := BuildResult(query, rec, target, acc, h, p.(localEnabled := true));
    var b := BuildResult(query, rec, target, acc, h, p.(localEnabled := false));
    assert b.identityAdjusted == h.identity;
    assert a.identityAdjusted == if a.windowContainsEpitope then h.identity else h.identity * p.epitopeFactor;
    assert a.score - b.score == a.identityAdjusted - b.identityAdjusted;
  }

  /** Whether a target is reported, or fails, does not depend on epitope
      matching; when reported, the two results relate as above. */
  lemma EpitopeToggle(query: string, rec: SeqRecord, p: Params)
    requires ValidParams(p) && 0.0 <= p.epitopeFactor <= 1.0
    ensures var on := CheckOneTarget(query, rec, p.(localEnabled := true));
      var off := CheckOneTarget(query, rec, p.(localEnabled := false));
      && (on.Ok? <==> off.Ok?)
      && (on.Ok? ==> (on.value.Some? <==> off.value.Some?))
      && (on.Ok? && on.value.Some? ==>
            var a := on.value.value;
            var b := off.value.value;
            && a.identity == b.identity
            && a.bestWindowSeq == b.bestWindowSeq
            && a.score <= b.score
            && (a.score == b.score <==> a.windowContainsEpitope || a.identity == 0.0 || p.epitopeFactor == 1.0))
  {
    var pOn := p.(localEnabled := true);
    var pOff := p.(localEnabled := false);
    CheckOneTargetOutcome(query, rec, pOn);
    CheckOneTargetOutcome(query, rec, pOff);
    var on := CheckOneTarget(query, rec, pOn);
    if on.Ok? && on.value.Some? {
      Reported(query, rec, pOn);
      Reported(query, rec, pOff);
      var target := Upper(rec.residues);
      ScanIdentityRange(query, target, p.win);
      BuildResultToggle(query, rec, target, Accession(rec.id).value, Scan(query, target, p.win), p);
    }
  }

  /** A window that occurs verbatim in the target is counted at least
      once, and, when it is at least 8 residues long, sets the 8-mer flag. */
  lemma BuildResultVerbatimWindow(query: string, rec: SeqRecord, target: string, acc: string, h: WindowHit, p: Params)
    requires ValidParams(p)
    requires 0 <= h.start && h.start + p.win <= |query| && IsSubstring(query[h.start..h.start + p.win], target)
    ensures var m := BuildResult(query, rec, target, acc, h, p);
      && m.windowHitCount >= 1
      && (p.win >= SeedLength ==> m.hasExact8mer && m.eightmerHitCount >= 1)
  {
    var w := query[h.start..h.start + p.win];
    assert PySlice(query, h.start, h.start + p.win) == w;
    SubstringIffCount(w, target);
    if p.win >= SeedLength {
      LongWindowImpliesFlag(query, target, h.start, p.win);
      EightmerCountIffFlag(query, target);
    }
  }

  /** A perfect window (identity 1.0) occurs verbatim in the target, so it
      is counted at least once, and, when the window is at least 8 residues
      long, the 8-mer flag is set. */
  lemma PerfectWindowCounts(query: string, rec: SeqRecord, p: Params)
    requires ValidParams(p)
    requires CheckOneTarget(query, rec, p).Ok? && CheckOneTarget(query, rec, p).value.Some?
    requires CheckOneTarget(query, rec, p).value.value.identity == 1.0
    ensures var m := CheckOneTarget(query, rec, p).value.value;
      && m.windowHitCount >= 1
      && (p.win >= SeedLength ==> m.hasExact8mer && m.eightmerHitCount >= 1)
  {
    Reported(query, rec, p);
    var target := Upper(rec.residues);
    var h := Scan(query, target, p.win);
    PerfectScanWindow(query, target, p.win);
    BuildResultVerbatimWindow(query, rec, target, Accession(rec.id).value, h, p);
  }
}
