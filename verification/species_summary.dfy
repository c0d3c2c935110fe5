/** `summarize_species_dedup_genus` of the web front end: the hits read
    back from a results file are grouped by organism (a `defaultdict` of
    score lists, in first-seen order), each organism is summarised with its
    genus, best score, mean score and hit count, the best organism per genus
    is kept (the same loop as `dedup_by_os`), and the survivors are sorted by
    best score, highest first. */
module SpeciesSummary {
  import opened Results
  import opened Strings
  import opened Organism
  import KeepBest
  import StableSort

  /** One result read back from a results file: its description and score. */
  datatype Hit = Hit(description: string, score: real)

  /** One entry of `species_scores`: an organism and its scores in order. */
  datatype Group = Group(species: string, scores: seq<real>)

  function SpeciesOf(h: Hit): string {
    ExtractOs(h.description)
  }

  /** A score with the organism name `extract_os` gives its description. */
  datatype Named = Named(species: string, score: real)

  function NamedSpecies(x: Named): string {
    x.species
  }

  function GroupSpecies(g: Group): string {
    g.species
  }

  /** `(extract_os(r["description"]), r["score"])` for every hit. */
  function Name(hits: seq<Hit>): (r: seq<Named>)
    ensures |r| == |hits|
    ensures forall i | 0 <= i < |hits| :: r[i] == Named(SpeciesOf(hits[i]), hits[i].score)
  {
    if |hits| == 0 then [] else [Named(SpeciesOf(hits[0]), hits[0].score)] + Name(hits[1..])
  }

  predicate NonEmptyGroups(gs: seq<Group>) {
    forall i | 0 <= i < |gs| :: |gs[i].scores| > 0
  }

  /** `species_scores[sp].append(s)`: an organism seen for the first time
      gets a new one-score list at the end, a known one gets the score
      appended to its list. */
  function AddScore(gs: seq<Group>, x: Named): (r: seq<Group>)
    requires NonEmptyGroups(gs)
    ensures NonEmptyGroups(r)
  {
    var i := KeepBest.FirstIndex(gs, x.species, GroupSpecies);
    if i == |gs| then gs + [Group(x.species, [x.score])]
    else gs[i := Group(x.species, gs[i].scores + [x.score])]
  }

  /** `species_scores` after the first `n` named scores. */
  function GroupUpTo(xs: seq<Named>, n: nat): (r: seq<Group>)
    requires n <= |xs|
    ensures NonEmptyGroups(r)
  {
    if n == 0 then [] else AddScore(GroupUpTo(xs, n - 1), xs[n - 1])
  }

  function GroupScores(hits: seq<Hit>): (r: seq<Group>)
    ensures NonEmptyGroups(r)
  {
    var xs := Name(hits);
    GroupUpTo(xs, |xs|)
  }

  /** Reference: `[s for (sp', s) in xs if sp' == sp]`. */
  function ScoresOf(xs: seq<Named>, sp: string): seq<real> {
    if |xs| == 0 then []
    else
      var last := xs[|xs| - 1];
      ScoresOf(xs[..|xs| - 1], sp) + (if last.species == sp then [last.score] else [])
  }

  // ---------------------------------------------------------------------
  // Grouping

  /** Each group holds exactly its organism's scores among the first `n` xs. */
  ghost predicate GroupsScores(xs: seq<Named>, n: nat, gs: seq<Group>)
    requires n <= |xs|
  {
    forall i | 0 <= i < |gs| :: gs[i].scores == ScoresOf(xs[..n], gs[i].species)
  }

  /** Every organism of the first `n` xs has a group. */
  ghost predicate GroupsCover(xs: seq<Named>, n: nat, gs: seq<Group>)
    requires n <= |xs|
  {
    forall m | 0 <= m < n :: KeepBest.FirstIndex(gs, xs[m].species, GroupSpecies) < |gs|
  }

  /** Every group's organism appears among the first `n` xs, and groups
      follow the order of first appearance. */
  ghost predicate GroupsSeen(xs: seq<Named>, n: nat, gs: seq<Group>) {
    && (forall i | 0 <= i < |gs| :: KeepBest.FirstIndex(xs, gs[i].species, NamedSpecies) < n)
    && (forall i, j | 0 <= i < j < |gs| ::
          KeepBest.FirstIndex(xs, gs[i].species, NamedSpecies) < KeepBest.FirstIndex(xs, gs[j].species, NamedSpecies))
  }

  /** What `species_scores` holds after `n` xs. */
  ghost predicate GroupsHold(xs: seq<Named>, n: nat, gs: seq<Group>)
    requires n <= |xs|
  {
    && KeepBest.KeysDistinct(gs, GroupSpecies)
    && GroupsScores(xs, n, gs)
    && GroupsCover(xs, n, gs)
    && GroupsSeen(xs, n, gs)
  }

  lemma {:induction false} ScoresOfStep(xs: seq<Named>, n: nat, sp: string)
    requires n < |xs|
    ensures ScoresOf(xs[..n + 1], sp)
      == ScoresOf(xs[..n], sp) + (if xs[n].species == sp then [xs[n].score] else [])
  {
    assert xs[..n + 1][..n] == xs[..n];
  }

  lemma {:induction false} ScoresOfAbsent(xs: seq<Named>, sp: string)
    requires forall m | 0 <= m < |xs| :: xs[m].species != sp
    ensures ScoresOf(xs, sp) == []
  {
    if |xs| > 0 {
      ScoresOfAbsent(xs[..|xs| - 1], sp);
    }
  }

  // --- an organism without a group: a new group is appended

  /** An organism without a group has not appeared yet, and first appears now. */
  lemma {:induction false} NewSpeciesFirstSeen(xs: seq<Named>, n: nat, gs: seq<Group>)
    requires n < |xs| && GroupsCover(xs, n, gs)
    requires KeepBest.FirstIndex(gs, xs[n].species, GroupSpecies) == |gs|
    ensures forall m | 0 <= m < n :: xs[m].species != xs[n].species
    ensures KeepBest.FirstIndex(xs, xs[n].species, NamedSpecies) == n
  {
    forall m | 0 <= m < n
      ensures xs[m].species != xs[n].species
    {
      assert KeepBest.FirstIndex(gs, xs[m].species, GroupSpecies) < |gs|;
    }
    KeepBest.FirstIndexAtMost(xs, n, NamedSpecies);
  }

  lemma {:induction false} NewSpeciesScores(xs: seq<Named>, n: nat, gs: seq<Group>)
    requires n < |xs| && GroupsCover(xs, n, gs) && GroupsScores(xs, n, gs)
    requires KeepBest.FirstIndex(gs, xs[n].species, GroupSpecies) == |gs|
    ensures GroupsScores(xs, n + 1, gs + [Group(xs[n].species, [xs[n].score])])
  {
    var sp := xs[n].species;
    var gs' := gs + [Group(sp, [xs[n].score])];
    NewSpeciesFirstSeen(xs, n, gs);
    ScoresOfAbsent(xs[..n], sp);
    forall i | 0 <= i < |gs'|
      ensures gs'[i].scores == ScoresOf(xs[..n + 1], gs'[i].species)
    {
      ScoresOfStep(xs, n, gs'[i].species);
    }
  }

  lemma {:induction false} NewSpeciesDistinct(gs: seq<Group>, g: Group)
    requires KeepBest.KeysDistinct(gs, GroupSpecies)
    requires KeepBest.FirstIndex(gs, g.species, GroupSpecies) == |gs|
    ensures KeepBest.KeysDistinct(gs + [g], GroupSpecies)
  {
  }

  lemma {:induction false} NewSpeciesCover(xs: seq<Named>, n: nat, gs: seq<Group>, g: Group)
    requires n < |xs| && GroupsCover(xs, n, gs) && g.species == xs[n].species
    ensures GroupsCover(xs, n + 1, gs + [g])
  {
    forall m | 0 <= m < n + 1
      ensures KeepBest.FirstIndex(gs + [g], xs[m].species, GroupSpecies) < |gs| + 1
    {
      KeepBest.FirstIndexAppend(gs, g, xs[m].species, GroupSpecies);
    }
  }

  lemma {:induction false} NewSpeciesSeen(xs: seq<Named>, n: nat, gs: seq<Group>, g: Group)
    requires n < |xs| && GroupsSeen(xs, n, gs)
    requires KeepBest.FirstIndex(xs, g.species, NamedSpecies) == n
    ensures GroupsSeen(xs, n + 1, gs + [g])
  {
    var gs' := gs + [g];
    assert forall i | 0 <= i < |gs| :: gs'[i] == gs[i];
  }

  // --- a known organism: its group gets the score appended

  /** Appending a score keeps every group's organism. */
  lemma {:induction false} KnownSpeciesShape(xs: seq<Named>, n: nat, gs: seq<Group>, gs': seq<Group>)
    requires n < |xs| && GroupsCover(xs, n, gs) && GroupsSeen(xs, n, gs)
    requires KeepBest.FirstIndex(gs, xs[n].species, GroupSpecies) < |gs|
    requires |gs'| == |gs| && forall i | 0 <= i < |gs| :: gs'[i].species == gs[i].species
    ensures GroupsCover(xs, n + 1, gs')
    ensures GroupsSeen(xs, n + 1, gs')
  {
    forall m | 0 <= m < n + 1
      ensures KeepBest.FirstIndex(gs', xs[m].species, GroupSpecies) < |gs'|
    {
      KeepBest.FirstIndexSameKeys(gs, gs', xs[m].species, GroupSpecies);
    }
  }

  lemma {:induction false} KnownSpeciesScores(xs: seq<Named>, n: nat, gs: seq<Group>)
    requires n < |xs| && KeepBest.KeysDistinct(gs, GroupSpecies) && GroupsScores(xs, n, gs)
    requires KeepBest.FirstIndex(gs, xs[n].species, GroupSpecies) < |gs|
    ensures var i := KeepBest.FirstIndex(gs, xs[n].species, GroupSpecies);
      GroupsScores(xs, n + 1, gs[i := Group(xs[n].species, gs[i].scores + [xs[n].score])])
  {
    var sp := xs[n].species;
    var i := KeepBest.FirstIndex(gs, sp, GroupSpecies);
    var gs' := gs[i := Group(sp, gs[i].scores + [xs[n].score])];
    forall j | 0 <= j < |gs'|
      ensures gs'[j].scores == ScoresOf(xs[..n + 1], gs'[j].species)
    {
      ScoresOfStep(xs, n, gs'[j].species);
      if j != i {
        assert gs[j].species != gs[i].species;
      }
    }
  }

  lemma {:induction false} GroupStep(xs: seq<Named>, n: nat)
    requires n < |xs| && GroupsHold(xs, n, GroupUpTo(xs, n))
    ensures GroupsHold(xs, n + 1, GroupUpTo(xs, n + 1))
  {
    var gs := GroupUpTo(xs, n);
    assert GroupUpTo(xs, n + 1) == AddScore(gs, xs[n]);
    assert NonEmptyGroups(gs) && KeepBest.KeysDistinct(gs, GroupSpecies);
    var sp := xs[n].species;
    var i := KeepBest.FirstIndex(gs, sp, GroupSpecies);
    if i == |gs| {
      var g := Group(sp, [xs[n].score]);
      NewSpeciesFirstSeen(xs, n, gs);
      NewSpeciesScores(xs, n, gs);
      NewSpeciesDistinct(gs, g);
      NewSpeciesCover(xs, n, gs, g);
      NewSpeciesSeen(xs, n, gs, g);
    } else {
      var gs' := gs[i := Group(sp, gs[i].scores + [xs[n].score])];
      KnownSpeciesScores(xs, n, gs);
      KnownSpeciesShape(xs, n, gs, gs');
    }
  }

  lemma {:induction false} GroupUpToHolds(xs: seq<Named>, n: nat)
    requires n <= |xs|
    ensures GroupsHold(xs, n, GroupUpTo(xs, n))
  {
    if n > 0 {
      var m := n - 1;
      GroupUpToHolds(xs, m);
      GroupStep(xs, m);
      assert m + 1 == n;
    }
  }

  /** The grouping: one group per organism; each group's scores are exactly
      the scores named with that organism, in order; every organism of the
      input has a group, and every group's organism is in the input; groups
      follow first appearance. */
  lemma {:induction false} GroupUpToSpec(xs: seq<Named>)
    ensures var gs := GroupUpTo(xs, |xs|);
      && KeepBest.KeysDistinct(gs, GroupSpecies)
      && (forall i | 0 <= i < |gs| :: gs[i].scores == ScoresOf(xs, gs[i].species))
      && (forall m | 0 <= m < |xs| :: KeepBest.FirstIndex(gs, xs[m].species, GroupSpecies) < |gs|)
      && (forall i | 0 <= i < |gs| :: KeepBest.FirstIndex(xs, gs[i].species, NamedSpecies) < |xs|)
      && (forall i, j | 0 <= i < j < |gs| ::
            KeepBest.FirstIndex(xs, gs[i].species, NamedSpecies) < KeepBest.FirstIndex(xs, gs[j].species, NamedSpecies))
  {
    GroupUpToHolds(xs, |xs|);
    assert xs[..|xs|] == xs;
  }

  // ---------------------------------------------------------------------
  // Hit counts

  function TotalScores(gs: seq<Group>): nat {
    if |gs| == 0 then 0 else |gs[0].scores| + TotalScores(gs[1..])
  }

  lemma {:induction false} TotalAppend(gs: seq<Group>, g: Group)
    ensures TotalScores(gs + [g]) == TotalScores(gs) + |g.scores|
  {
    if |gs| > 0 {
      assert (gs + [g])[1..] == gs[1..] + [g];
      TotalAppend(gs[1..], g);
    }
  }

  lemma {:induction false} TotalUpdate(gs: seq<Group>, i: nat, g: Group)
    requires i < |gs|
    ensures TotalScores(gs[i := g]) + |gs[i].scores| == TotalScores(gs) + |g.scores|
  {
    if i > 0 {
      assert gs[i := g][1..] == gs[1..][i - 1 := g];
      TotalUpdate(gs[1..], i - 1, g);
    }
  }

  lemma {:induction false} GroupUpToTotal(xs: seq<Named>, n: nat)
    requires n <= |xs|
    ensures TotalScores(GroupUpTo(xs, n)) == n
  {
    if n > 0 {
      GroupUpToTotal(xs, n - 1);
      var gs := GroupUpTo(xs, n - 1);
      var sp := xs[n - 1].species;
      var i := KeepBest.FirstIndex(gs, sp, GroupSpecies);
      if i == |gs| {
        TotalAppend(gs, Group(sp, [xs[n - 1].score]));
      } else {
        TotalUpdate(gs, i, Group(sp, gs[i].scores + [xs[n - 1].score]));
      }
    }
  }

  // ---------------------------------------------------------------------
  // Per-organism summaries

  /** `max(scores)` */
  function MaxOf(xs: seq<real>): (m: real)
    requires |xs| > 0
    ensures m in xs
    ensures forall i | 0 <= i < |xs| :: xs[i] <= m
  {
    if |xs| == 1 then xs[0]
    else
      var r := MaxOf(xs[1..]);
      if xs[0] >= r then xs[0] else r
  }

  /** `sum(scores)` */
  function Sum(xs: seq<real>): real {
    if |xs| == 0 then 0.0 else xs[0] + Sum(xs[1..])
  }

  lemma {:induction false} SumAtMost(xs: seq<real>, b: real)
    requires forall i | 0 <= i < |xs| :: xs[i] <= b
    ensures Sum(xs) <= (|xs| as real) * b
  {
    if |xs| > 0 {
      SumAtMost(xs[1..], b);
    }
  }

  /** One row of `summary`. */
  datatype SpeciesEntry = SpeciesEntry(species: string, genus: string, maxScore: real, avgScore: real, hits: nat)

  /** The row of one group whose genus is `genus`. */
  function MakeEntry(g: Group, genus: string): SpeciesEntry
    requires |g.scores| > 0
  {
    SpeciesEntry(g.species, genus, MaxOf(g.scores), Sum(g.scores) / (|g.scores| as real), |g.scores|)
  }

  /** The best score is one of the group's scores and bounds them all, the
      mean is at most the best, and the hit count is the number of scores. */
  lemma {:induction false} MakeEntrySpec(g: Group, genus: string)
    requires |g.scores| > 0
    ensures var e := MakeEntry(g, genus);
      && e.species == g.species && e.genus == genus
      && e.maxScore in g.scores
      && (forall i | 0 <= i < |g.scores| :: g.scores[i] <= e.maxScore)
      && e.avgScore <= e.maxScore
      && e.hits == |g.scores|
  {
    MeanAtMostMax(g.scores);
  }

  lemma {:induction false} MeanAtMostMax(xs: seq<real>)
    requires |xs| > 0
    ensures Sum(xs) / (|xs| as real) <= MaxOf(xs)
  {
    var m := MaxOf(xs);
    SumAtMost(xs, m);
    DivBound(Sum(xs), |xs| as real, m);
  }

  lemma {:induction false} DivBound(a: real, n: real, b: real)
    requires n > 0.0 && a <= n * b
    ensures a / n <= b
  {
    var q := a / n;
    assert q * n == a;
    if q > b {
      assert q * n > b * n;
    }
  }

  /** `summary`: one entry per group, in group order; `get_genus` raises on
      the first blank organism name. */
  function Summary(gs: seq<Group>): Result<seq<SpeciesEntry>, GenusError>
    requires NonEmptyGroups(gs)
  {
    if |gs| == 0 then Ok([])
    else
      match GetGenus(gs[0].species)
      case Err(e) => Err(e)
      case Ok(genus) =>
        match Summary(gs[1..])
        case Err(err) => Err(err)
        case Ok(rest) => Ok([MakeEntry(gs[0], genus)] + rest)
  }

  /** Only whitespace. */
  predicate Blank(s: string) {
    forall i | 0 <= i < |s| :: IsSpace(s[i])
  }

  /** One step of `summary`: it fails on the first group's blank organism
      or on a failure later on. */
  lemma {:induction false} SummaryStep(gs: seq<Group>)
    requires NonEmptyGroups(gs) && |gs| > 0
    ensures Summary(gs).Err? <==> Blank(gs[0].species) || Summary(gs[1..]).Err?
  {
    assert GetGenus(gs[0].species).Err? <==> Blank(gs[0].species);
  }

  /** The summary fails exactly when some organism name is blank. */
  lemma {:induction false} SummaryFails(gs: seq<Group>)
    requires NonEmptyGroups(gs)
    ensures Summary(gs).Err? <==> exists i | 0 <= i < |gs| :: Blank(gs[i].species)
  {
    if |gs| > 0 {
      SummaryStep(gs);
      SummaryFails(gs[1..]);
      if exists i | 0 <= i < |gs[1..]| :: Blank(gs[1..][i].species) {
        var i :| 0 <= i < |gs[1..]| && Blank(gs[1..][i].species);
        assert Blank(gs[i + 1].species);
      }
      if exists i | 0 <= i < |gs| :: Blank(gs[i].species) {
        var i :| 0 <= i < |gs| && Blank(gs[i].species);
        if i > 0 {
          assert Blank(gs[1..][i - 1].species);
        }
      }
    }
  }

  /** A successful summary holds each group's entry, in order, with the
      genus `get_genus` gives. */
  lemma {:induction false} SummaryEntries(gs: seq<Group>)
    requires NonEmptyGroups(gs) && Summary(gs).Ok?
    ensures var es := Summary(gs).value;
      && |es| == |gs|
      && forall i | 0 <= i < |gs| :: GetGenus(gs[i].species) == Ok(es[i].genus) && es[i] == MakeEntry(gs[i], es[i].genus)
  {
    if |gs| > 0 {
      SummaryEntries(gs[1..]);
      var es := Summary(gs).value;
      var rest := Summary(gs[1..]).value;
      assert es == [MakeEntry(gs[0], GetGenus(gs[0].species).value)] + rest;
      forall i | 0 < i < |gs|
        ensures GetGenus(gs[i].species) == Ok(es[i].genus) && es[i] == MakeEntry(gs[i], es[i].genus)
      {
        assert gs[i] == gs[1..][i - 1] && es[i] == rest[i - 1];
      }
    }
  }

  // ---------------------------------------------------------------------
  // Best organism per genus, sorted

  function GenusOf(e: SpeciesEntry): string {
    e.genus
  }

  function MaxScoreOf(e: SpeciesEntry): real {
    e.maxScore
  }

  /** `key=lambda x: x["max_score"], reverse=True` */
  predicate ByMaxScoreDesc(a: SpeciesEntry, b: SpeciesEntry) {
    a.maxScore >= b.maxScore
  }

  /** The tail of `summarize_species_dedup_genus`: best entry per genus,
      sorted by best score, highest first. */
  function BestPerGenus(summary: seq<SpeciesEntry>): seq<SpeciesEntry> {
    StableSort.SortBy(KeepBest.KeepBest(summary, GenusOf, MaxScoreOf), ByMaxScoreDesc)
  }

  function SummarizeSpeciesDedupGenus(hits: seq<Hit>): Result<seq<SpeciesEntry>, GenusError> {
    match Summary(GroupScores(hits))
    case Err(e) => Err(e)
    case Ok(summary) => Ok(BestPerGenus(summary))
  }

  /** The kept entries come from the summary and none is beaten by an entry
      of the same genus; every genus of the summary is kept. */
  lemma {:induction false} BestPerGenusMembers(summary: seq<SpeciesEntry>)
    ensures var best := KeepBest.KeepBest(summary, GenusOf, MaxScoreOf);
      && (forall y | y in best :: y in summary)
      && (forall y, x | y in best && x in summary && x.genus == y.genus :: x.maxScore <= y.maxScore)
      && (forall x | x in summary :: exists y | y in best :: y.genus == x.genus)
  {
    var best := KeepBest.KeepBest(summary, GenusOf, MaxScoreOf);
    KeepBest.KeepBestSpec(summary, GenusOf, MaxScoreOf);
    forall y | y in best
      ensures y in summary && forall x | x in summary && x.genus == y.genus :: x.maxScore <= y.maxScore
    {
      var i :| 0 <= i < |best| && best[i] == y;
      assert KeepBest.IsWinning(summary, |summary|, best[i], GenusOf, MaxScoreOf);
      var j :| KeepBest.IsWinner(summary, |summary|, j, GenusOf, MaxScoreOf) && y == summary[j];
    }
    forall x | x in summary
      ensures exists y | y in best :: y.genus == x.genus
    {
      var m :| 0 <= m < |summary| && summary[m] == x;
      var k := KeepBest.FirstIndex(best, GenusOf(summary[m]), GenusOf);
      assert k < |best|;
    }
  }

  /** One entry per genus, each an entry of the summary with no entry of
      the same genus scoring higher, every genus of the summary present,
      sorted by best score, highest first. */
  lemma {:induction false} BestPerGenusSpec(summary: seq<SpeciesEntry>)
    ensures var out := BestPerGenus(summary);
      && KeepBest.KeysDistinct(out, GenusOf)
      && (forall i, j | 0 <= i < j < |out| :: out[i].maxScore >= out[j].maxScore)
      && (forall y | y in out :: y in summary)
      && (forall y, x | y in out && x in summary && x.genus == y.genus :: x.maxScore <= y.maxScore)
      && (forall x | x in summary :: exists y | y in out :: y.genus == x.genus)
  {
    var best := KeepBest.KeepBest(summary, GenusOf, MaxScoreOf);
    var out := BestPerGenus(summary);
    KeepBest.KeepBestSpec(summary, GenusOf, MaxScoreOf);
    KeepBest.SortKeepsKeysDistinct(best, ByMaxScoreDesc, GenusOf);
    StableSort.SortBySpec(best, ByMaxScoreDesc);
    BestPerGenusMembers(summary);
    forall y | y in out
      ensures y in best
    {
      assert y in multiset(best);
    }
    forall y | y in best
      ensures y in out
    {
      assert y in multiset(out);
    }
  }

  /** Every organism named in `xs` has a group. */
  lemma {:induction false} NamedHaveGroups(xs: seq<Named>, gs: seq<Group>)
    requires gs == GroupUpTo(xs, |xs|)
    ensures forall m | 0 <= m < |xs| :: exists i | 0 <= i < |gs| :: gs[i].species == xs[m].species
  {
    GroupUpToHolds(xs, |xs|);
    assert GroupsCover(xs, |xs|, gs);
    forall m | 0 <= m < |xs|
      ensures exists i | 0 <= i < |gs| :: gs[i].species == xs[m].species
    {
      var i := KeepBest.FirstIndex(gs, xs[m].species, GroupSpecies);
      assert gs[i].species == xs[m].species;
    }
  }

  /** Every group's organism is named in `xs`. */
  lemma {:induction false} GroupsAreNamed(xs: seq<Named>, gs: seq<Group>)
    requires gs == GroupUpTo(xs, |xs|)
    ensures forall i | 0 <= i < |gs| :: exists m | 0 <= m < |xs| :: gs[i].species == xs[m].species
  {
    GroupUpToHolds(xs, |xs|);
    assert GroupsSeen(xs, |xs|, gs);
    forall i | 0 <= i < |gs|
      ensures exists m | 0 <= m < |xs| :: gs[i].species == xs[m].species
    {
      var m := KeepBest.FirstIndex(xs, gs[i].species, NamedSpecies);
      assert xs[m].species == gs[i].species;
    }
  }

  /** Each group's scores are the scores of the hits naming its organism,
      in order; no two groups share an organism; the hit counts add up to
      the number of hits. */
  lemma {:induction false} GroupScoresSpec(hits: seq<Hit>)
    ensures var gs := GroupScores(hits);
      && KeepBest.KeysDistinct(gs, GroupSpecies)
      && (forall i | 0 <= i < |gs| :: gs[i].scores == ScoresOf(Name(hits), gs[i].species))
      && TotalScores(gs) == |hits|
  {
    var xs := Name(hits);
    GroupUpToSpec(xs);
    GroupUpToTotal(xs, |xs|);
  }

  /** A blank group organism is a blank named organism. */
  lemma {:induction false} BlankGroupIsNamed(xs: seq<Named>, gs: seq<Group>, i: nat)
    requires gs == GroupUpTo(xs, |xs|) && i < |gs| && Blank(gs[i].species)
    ensures exists m | 0 <= m < |xs| :: Blank(xs[m].species)
  {
    GroupsAreNamed(xs, gs);
    var m :| 0 <= m < |xs| && gs[i].species == xs[m].species;
    assert Blank(xs[m].species);
  }

  /** A blank named organism is a blank group organism. */
  lemma {:induction false} BlankNameIsGroup(xs: seq<Named>, gs: seq<Group>, m: nat)
    requires gs == GroupUpTo(xs, |xs|) && m < |xs| && Blank(xs[m].species)
    ensures exists i | 0 <= i < |gs| :: Blank(gs[i].species)
  {
    NamedHaveGroups(xs, gs);
    var i :| 0 <= i < |gs| && gs[i].species == xs[m].species;
    assert Blank(gs[i].species);
  }

  /** `summarize_species_dedup_genus` raises exactly when the organism name
      `extract_os` gives some hit is blank; otherwise it is the best entry
      per genus of the summary, which has one entry per organism. */
  lemma {:induction false} SummarizeSpec(hits: seq<Hit>)
    ensures SummarizeSpeciesDedupGenus(hits).Err? <==> exists m | 0 <= m < |hits| :: Blank(SpeciesOf(hits[m]))
    ensures var gs := GroupScores(hits);
      Summary(gs).Ok? ==>
        && |Summary(gs).value| == |gs|
        && SummarizeSpeciesDedupGenus(hits) == Ok(BestPerGenus(Summary(gs).value))
  {
    var xs := Name(hits);
    var gs := GroupScores(hits);
    assert gs == GroupUpTo(xs, |xs|);
    SummaryFails(gs);
    if Summary(gs).Ok? {
      SummaryEntries(gs);
    }
    if exists i | 0 <= i < |gs| :: Blank(gs[i].species) {
      var i :| 0 <= i < |gs| && Blank(gs[i].species);
      BlankGroupIsNamed(xs, gs, i);
      var m :| 0 <= m < |xs| && Blank(xs[m].species);
      assert Blank(SpeciesOf(hits[m]));
    }
    if exists m | 0 <= m < |hits| :: Blank(SpeciesOf(hits[m])) {
      var m :| 0 <= m < |hits| && Blank(SpeciesOf(hits[m]));
      assert Blank(xs[m].species);
      BlankNameIsGroup(xs, gs, m);
    }
  }

  /** A score is among an organism's scores exactly when some named hit of
      that organism carries it. */
  lemma {:induction false} ScoresOfMember(xs: seq<Named>, sp: string, v: real)
    ensures v in ScoresOf(xs, sp) <==> exists m | 0 <= m < |xs| :: xs[m].species == sp && xs[m].score == v
  {
    if |xs| > 0 {
      var ys := xs[..|xs| - 1];
      ScoresOfMember(ys, sp, v);
      if exists m | 0 <= m < |ys| :: ys[m].species == sp && ys[m].score == v {
        var m :| 0 <= m < |ys| && ys[m].species == sp && ys[m].score == v;
        assert xs[m] == ys[m];
      }
      if exists m | 0 <= m < |xs| :: xs[m].species == sp && xs[m].score == v {
        var m :| 0 <= m < |xs| && xs[m].species == sp && xs[m].score == v;
        if m < |ys| {
          assert ys[m] == xs[m];
        }
      }
    }
  }

  /** Every hit lands in the summary entry of its organism, whose genus is
      the hit's genus and whose best score is at least the hit's score. */
  lemma {:induction false} HitHasEntry(hits: seq<Hit>, m: nat)
    requires Summary(GroupScores(hits)).Ok? && m < |hits|
    ensures var es := Summary(GroupScores(hits)).value;
      exists i | 0 <= i < |es| ::
        && es[i].species == SpeciesOf(hits[m])
        && GetGenus(SpeciesOf(hits[m])) == Ok(es[i].genus)
        && hits[m].score <= es[i].maxScore
  {
    var xs := Name(hits);
    var gs := GroupScores(hits);
    var es := Summary(gs).value;
    NamedHaveGroups(xs, gs);
    GroupScoresSpec(hits);
    SummaryEntries(gs);
    var i :| 0 <= i < |gs| && gs[i].species == xs[m].species;
    ScoresOfMember(xs, gs[i].species, hits[m].score);
    MakeEntrySpec(gs[i], es[i].genus);
    var k :| 0 <= k < |gs[i].scores| && gs[i].scores[k] == hits[m].score;
    assert es[i].species == SpeciesOf(hits[m]);
  }

  /** Every summary entry's best score is the score of some hit of its
      organism, and so of its genus. */
  lemma {:induction false} EntryHasHit(hits: seq<Hit>, e: SpeciesEntry)
    requires Summary(GroupScores(hits)).Ok? && e in Summary(GroupScores(hits)).value
    ensures exists m | 0 <= m < |hits| ::
      && SpeciesOf(hits[m]) == e.species
      && GetGenus(SpeciesOf(hits[m])) == Ok(e.genus)
      && hits[m].score == e.maxScore
  {
    var xs := Name(hits);
    var gs := GroupScores(hits);
    var es := Summary(gs).value;
    var i :| 0 <= i < |es| && es[i] == e;
    GroupScoresSpec(hits);
    SummaryEntries(gs);
    MakeEntrySpec(gs[i], es[i].genus);
    ScoresOfMember(xs, gs[i].species, es[i].maxScore);
    var m :| 0 <= m < |xs| && xs[m].species == gs[i].species && xs[m].score == es[i].maxScore;
    assert SpeciesOf(hits[m]) == es[i].species;
  }

  /** Each kept entry comes from the summary. */
  lemma {:induction false} BestPerGenusFrom(summary: seq<SpeciesEntry>, y: SpeciesEntry)
    requires y in BestPerGenus(summary)
    ensures y in summary
  {
    BestPerGenusSpec(summary);
  }

  /** Each kept entry's best score is the score of some hit of its genus. */
  lemma {:induction false} SummarizeGenusAttained(hits: seq<Hit>)
    requires SummarizeSpeciesDedupGenus(hits).Ok?
    ensures forall y | y in SummarizeSpeciesDedupGenus(hits).value ::
      exists m | 0 <= m < |hits| :: GetGenus(SpeciesOf(hits[m])) == Ok(y.genus) && hits[m].score == y.maxScore
  {
    var es := Summary(GroupScores(hits)).value;
    var out := SummarizeSpeciesDedupGenus(hits).value;
    assert out == BestPerGenus(es);
    forall y | y in out
      ensures exists m | 0 <= m < |hits| :: GetGenus(SpeciesOf(hits[m])) == Ok(y.genus) && hits[m].score == y.maxScore
    {
      BestPerGenusFrom(es, y);
      EntryHasHit(hits, y);
    }
  }

  /** No summary entry of a kept entry's genus scores higher. */
  lemma {:induction false} BestPerGenusUnbeaten(summary: seq<SpeciesEntry>, y: SpeciesEntry, x: SpeciesEntry)
    requires y in BestPerGenus(summary) && x in summary && x.genus == y.genus
    ensures x.maxScore <= y.maxScore
  {
    BestPerGenusSpec(summary);
  }

  /** Every genus of the summary has a kept entry. */
  lemma {:induction false} BestPerGenusCovers(summary: seq<SpeciesEntry>, x: SpeciesEntry)
    requires x in summary
    ensures exists y | y in BestPerGenus(summary) :: y.genus == x.genus
  {
    BestPerGenusSpec(summary);
  }

  /** Each kept entry's best score is at least the score of every hit of
      its genus: it is the genus maximum. */
  lemma {:induction false} SummarizeGenusBound(hits: seq<Hit>)
    requires SummarizeSpeciesDedupGenus(hits).Ok?
    ensures forall y, m | y in SummarizeSpeciesDedupGenus(hits).value && 0 <= m < |hits|
        && GetGenus(SpeciesOf(hits[m])) == Ok(y.genus) :: hits[m].score <= y.maxScore
  {
    var es := Summary(GroupScores(hits)).value;
    var out := SummarizeSpeciesDedupGenus(hits).value;
    assert out == BestPerGenus(es);
    forall y, m | y in out && 0 <= m < |hits| && GetGenus(SpeciesOf(hits[m])) == Ok(y.genus)
      ensures hits[m].score <= y.maxScore
    {
      HitHasEntry(hits, m);
      var i :| 0 <= i < |es| && GetGenus(SpeciesOf(hits[m])) == Ok(es[i].genus) && hits[m].score <= es[i].maxScore;
      BestPerGenusUnbeaten(es, y, es[i]);
    }
  }

  /** Every hit's genus has a kept entry. */
  lemma {:induction false} SummarizeGenusCovered(hits: seq<Hit>)
    requires SummarizeSpeciesDedupGenus(hits).Ok?
    ensures forall m | 0 <= m < |hits| ::
      exists y | y in SummarizeSpeciesDedupGenus(hits).value :: GetGenus(SpeciesOf(hits[m])) == Ok(y.genus)
  {
    var es := Summary(GroupScores(hits)).value;
    var out := SummarizeSpeciesDedupGenus(hits).value;
    assert out == BestPerGenus(es);
    forall m | 0 <= m < |hits|
      ensures exists y | y in out :: GetGenus(SpeciesOf(hits[m])) == Ok(y.genus)
    {
      HitHasEntry(hits, m);
      var i :| 0 <= i < |es| && GetGenus(SpeciesOf(hits[m])) == Ok(es[i].genus);
      BestPerGenusCovers(es, es[i]);
      var y :| y in out && y.genus == es[i].genus;
    }
  }

  /** Ties: the kept entry of a genus is the earliest summary entry with
      the genus maximum, genera are first kept in order of first appearance,
      and the descending sort keeps equal scores in that order. */
  lemma {:induction false} BestPerGenusTies(summary: seq<SpeciesEntry>)
    ensures var best := KeepBest.KeepBest(summary, GenusOf, MaxScoreOf);
      && KeepBest.Winners(summary, |summary|, best, GenusOf, MaxScoreOf)
      && KeepBest.FirstSeenOrder(summary, best, GenusOf)
      && StableSort.Stable(BestPerGenus(summary), best, ByMaxScoreDesc)
  {
    var best := KeepBest.KeepBest(summary, GenusOf, MaxScoreOf);
    KeepBest.KeepBestSpec(summary, GenusOf, MaxScoreOf);
    StableSort.SortBySpec(best, ByMaxScoreDesc);
  }

  /** No hits, no entries. */
  lemma {:induction false} SummarizeEmpty()
    ensures SummarizeSpeciesDedupGenus([]) == Ok([])
  {
  }
}
