# Cross-allergen prediction: a Dafny model of the scoring core

This project models the core of a cross-allergen predictor, as pure Dafny functions with proved
properties. The predictor scores a query protein against a database of known allergens
(UniProt FASTA records).

For each database record, `check_one_target` does the following:

- upper-cases the target;
- skips the query itself;
- reads the accession from the second `|` field of the record id;
- slides an 80-residue window over the query and aligns each window against the whole target
  with edlib in `HW` (infix) mode, keeping the best identity `1 - distance / 80`;
- drops targets below the identity threshold 0.35;
- when epitope matching is on, multiplies the identity by 0.8 unless an epitope catalogued for
  the accession occurs in the best window;
- adds a bonus of 0.1 when query and target share an exact 8-mer;
- records how often the best window and the query's 8-mers occur in the target.

`check_cross_parallel` sweeps a whole database. `predict_cross_allergen` then does the following
for every query:

- keeps the best hit per organism (`dedup_by_os`, where the organism comes from the `OS=` field
  through `extract_os`);
- sorts the hits by score, highest first;
- tags them with the query id;
- sorts everything by query id and then by descending score;
- cuts the id column down to the accession.

The web front end's `summarize_species_dedup_genus` does the following:

- groups hits by organism;
- summarises each group (genus, best score, mean score, hit count);
- keeps the best organism per genus;
- sorts the survivors by best score.

The evaluation script works in three steps:

- `evaluate_directory` scores each two-record sample with a one-record sweep;
- `binarize_scores` turns scores into 0/1 predictions;
- `evaluate_all` joins a positive and a negative directory.

Modules, one per file:

| module | models |
|---|---|
| `Results` | `Option` for Python's value-or-`None`; `Result` for a call that returns or raises |
| `Strings` | the `str` operations used: `upper`, `in`, `find`, slicing with negative indices, `split`, `strip`, `split()`, and ordering with `<` |
| `EditDistance` | Levenshtein distance and edlib's HW-mode distance, as the least distance to any substring of the target |
| `WindowScan` | the sliding-window scan of `sliding_window_identity_fast` and of the best-window loop of `check_one_target` |
| `EpitopeMatch` | `best_epitope_identity_edlib` |
| `Kmers` | `count_substring_hits`, the distinct 8-mers of the query, `has_exact8mer` |
| `Organism` | the `extract_os` regular expression, and `get_genus` |
| `Scoring` | `check_one_target` |
| `KeepBest` | the generic "best entry per key" dict loop; the Python code writes it twice, in `dedup_by_os` and in the `best_per_genus` loop |
| `StableSort` | Python's stable `sort`, as a stable insertion sort; it is the unique stable sorted permutation |
| `Pipeline` | `check_cross_parallel`, `dedup_by_os`, and `predict_cross_allergen` |
| `SpeciesSummary` | `summarize_species_dedup_genus` (app.py) |
| `Evaluation` | `evaluate_directory`, `binarize_scores`, and `evaluate_all` without the metrics |

`extract_os` is defined identically in cross_allergen.py:176-179 and app.py:49-51. One model,
`Organism.ExtractOs`, serves both.

`check_one_target` calls the exact-seed flag `has_6mer`. The function behind it, `has_exact8mer`, tests
8-mers, and the model follows the code: `Kmers.SeedLength` is 8.

A failing record is not isolated: `pool.imap_unordered` re-raises a worker's exception in the
caller, so one record whose id has no `|` aborts the whole sweep (`Pipeline.Sweep` returns
`Err`).

## Model

| member | source | states |
|---|---|---|
| Strings.Upper | cross_allergen.py:91 | the result has the input's length; each character is upper-cased; no lower-case ASCII letter remains |
| Strings.Find | cross_allergen.py:82 | `find` returns -1 exactly when the pattern occurs at no position from `start` on; otherwise it returns the first such position |
| Strings.SubstringIffCount | cross_allergen.py:51 | `pat in s` holds exactly when the overlapping occurrence count is positive |
| Strings.SubstringTransitive | cross_allergen.py:128-137 | a piece of a window that occurs in the target (such as one of its 8-mers) also occurs in the target |
| Strings.PySlice | cross_allergen.py:114 | Python slicing agrees with plain slicing on in-range indices and never leaves the string |
| Strings.Split | cross_allergen.py:95 | splitting on the pipe character yields at least one part, and no part contains the separator |
| Strings.JoinSplit | cross_allergen.py:95 | joining the parts of `split(sep)` with `sep` gives back the original id |
| Strings.SplitHasSecond | cross_allergen.py:95 | the second pipe-separated field exists exactly when the id contains a pipe character |
| Strings.Strip | app.py:54 | `strip()` keeps only characters of its input; a non-empty result has no whitespace at either end; the result is empty exactly when the input is all whitespace |
| Strings.StripBounds | app.py:54 | the stripped string is a contiguous piece of the input, with only whitespace before and after it |
| Strings.Words | app.py:54 | `split()` yields non-empty whitespace-free words, and none at all exactly when the input is all whitespace |
| Strings.StrLtIrreflexive | cross_allergen.py:228 | no query id sorts before itself |
| Strings.StrLtTransitive | cross_allergen.py:228 | string `<` on query ids is transitive |
| Strings.StrLtTotal | cross_allergen.py:228 | any two distinct query ids are ordered one way or the other |
| EditDistance.LevZeroIff | cross_allergen.py:26 | the edit distance is zero exactly when the strings are equal |
| EditDistance.MinOverEndsBounds | cross_allergen.py:26 | for a fixed start, the minimum over end points is at most the distance to every substring and equal to one of them |
| EditDistance.MinOverStartsBounds | cross_allergen.py:26 | the HW minimum is at most the distance to every substring from the given start on, and attained by one of them |
| EditDistance.HWDistIsMinimum | cross_allergen.py:26 | the HW-mode distance is the least edit distance between the query and any substring of the target |
| EditDistance.HWDistFacts | cross_allergen.py:26 | the HW distance is at most the query length, and zero exactly when the query occurs verbatim in the target |
| EditDistance.EdlibAlign | cross_allergen.py:26-28 | edlib's distance lies in 0..len(query), so the -1 branch never fires; it is 0 exactly on a verbatim occurrence |
| EditDistance.IdentityRange | cross_allergen.py:29 | `1 - d / len` lies in [0, 1] and is 1.0 exactly when `d` is 0 |
| WindowScan.WindowIdentityRange | cross_allergen.py:100-104 | a window's identity lies in [0, 1] and is 1.0 exactly when the window occurs verbatim in the target |
| WindowScan.AllWindowsAtMostOne | cross_allergen.py:99-104 | every window's identity lies in [0, 1] |
| WindowScan.ScanFromIsRunningBest | cross_allergen.py:99-109 | the scan keeps the strictly best identity found so far, and the earliest window that reached it |
| WindowScan.ScanSpec | cross_allergen.py:97-99 | a window longer than the query yields identity 0.0 and start -1 |
| WindowScan.ScanIdentityRange | cross_allergen.py:97-109 | the best identity lies in [0, 1] |
| WindowScan.PerfectScanWindow | cross_allergen.py:108-114 | at identity 1.0 the reported window lies inside the query and occurs verbatim in the target |
| WindowScan.ScanPerfectIff | cross_allergen.py:99-109 | the best identity is 1.0 exactly when some window of the query occurs verbatim in the target |
| WindowScan.FullScanStaysAtOne | cross_allergen.py:108-109 | once identity 1.0 is reached, the rest of a full scan changes nothing |
| WindowScan.ScanFromIsFull | cross_allergen.py:108-109 | the early-exit scan equals the scan over all windows |
| WindowScan.EarlyExitAgrees | cross_allergen.py:22-34 | `sliding_window_identity_fast`, with its early return at 1.0, gives the identity of the exhaustive scan |
| EpitopeMatch.EpitopeIdentityRange | cross_allergen.py:62-65 | an epitope's identity in the query lies in [0, 1] and is 1.0 exactly when it occurs verbatim |
| EpitopeMatch.MaxIdentityRange | cross_allergen.py:55-75 | the best epitope identity lies in [0, 1] |
| EpitopeMatch.TiedAtAbove | cross_allergen.py:66-70 | no epitope is tied at a value above the maximum |
| EpitopeMatch.MatchFromSpec | cross_allergen.py:59-73 | from any running state below 1.0, the loop ends with the first perfect epitope alone, or with the maximum and every epitope tied at it |
| EpitopeMatch.BestEpitopeIdentitySpec | cross_allergen.py:55-75 | the result is `(1.0, [first perfect epitope])` when one exists; otherwise it is the maximum identity over epitopes of length ≥ 6 together with all epitopes tied at it, in catalogue order |
| EpitopeMatch.NoQualifyingEpitope | cross_allergen.py:56-61 | with no epitope of length ≥ 6 the result is `(0.0, [])` |
| EpitopeMatch.NoneQualify | cross_allergen.py:60-61 | epitopes shorter than six give no perfect match, a maximum of 0.0, and no ties |
| Kmers.CountSubstringHits | cross_allergen.py:78-87 | the loop counts every overlapping occurrence, and the count is positive exactly when the substring occurs |
| Kmers.KmersFrom | cross_allergen.py:131 | every element is an 8-mer of the query, and every 8-mer of the query is listed |
| Kmers.Dedupe | cross_allergen.py:131 | building the set keeps the same members, with no duplicates |
| Kmers.DistinctKmers | cross_allergen.py:131 | the set holds exactly the query's k-mers, each once |
| Kmers.SumCountsPositive | cross_allergen.py:132-134 | the summed hit count is positive exactly when some 8-mer occurs in the target |
| Kmers.AnyKmerFrom | cross_allergen.py:49-53 | the search answers true exactly when some k-mer from the given offset on occurs in the target |
| Kmers.HasExact8mer | cross_allergen.py:48-53 | true exactly when some 8-mer of the query occurs in the target; always false for a query shorter than 8 |
| Kmers.EightmerCountIffFlag | cross_allergen.py:130-137 | `eightmer_hit_count > 0` exactly when `has_6mer` is set |
| Kmers.LongWindowImpliesFlag | cross_allergen.py:128-137 | a verbatim occurrence of a query piece at least 8 long sets the exact-seed flag |
| Scoring.Accession | cross_allergen.py:95 | the accession exists exactly when the id contains a pipe character, and contains none itself |
| Scoring.CheckOneTargetOutcome | cross_allergen.py:91-112 | a target equal to the query is skipped; otherwise an id without a pipe character raises; below the identity threshold nothing is reported |
| Scoring.Reported | cross_allergen.py:89-155 | a reported target differs from the query, has an accession, reached the threshold, and its result is built from the best window |
| Scoring.ReportedWindow | cross_allergen.py:99-146 | id, description and raw identity are carried over; the identity lies between the threshold and 1.0; the best window is the query slice at the best start |
| Scoring.ZeroIdentityWindow | cross_allergen.py:98-114 | with `best_start` still -1, the window is `query[-1:win-1]`: empty when the query is at least `win` long, else its last residue |
| Scoring.ScoreComposition | cross_allergen.py:127-139 | score = adjusted identity + 0.1 exactly when an 8-mer is shared; the window hit count is its overlapping occurrence count; the 8-mer count is positive exactly when the flag is set |
| Scoring.BuildResultEpitopes | cross_allergen.py:116-141 | epitopes off gives mode `global_no_epitope`, no epitope flag and an unchanged identity; epitopes on gives mode `global_epitope_adjusted` and sets the flag exactly when a catalogued epitope occurs in the window, damping by the factor otherwise; an accession missing from the catalogue gets the damping |
| Scoring.BuildResultBounds | cross_allergen.py:122-139 | 0 ≤ adjusted identity ≤ identity, and 0 ≤ score ≤ identity + bonus ≤ 1 + bonus |
| Scoring.ScoreBounds | cross_allergen.py:89-139 | every reported result has 0 ≤ adjusted identity ≤ identity and 0 ≤ score ≤ 1.1 under the defaults |
| Scoring.Damp | cross_allergen.py:122 | damping by a factor in [0, 1] never raises the identity, and leaves it unchanged exactly when the identity is 0 or the factor is 1 |
| Scoring.BuildResultToggle | cross_allergen.py:116-139 | switching epitopes on changes neither the window nor the counts; it never raises the score, and leaves it unchanged exactly when the window holds an epitope, the identity is 0, or the factor is 1 |
| Scoring.EpitopeToggle | cross_allergen.py:89-155 | the epitope switch changes neither whether a target fails or is reported nor its window, and never raises its score |
| Scoring.BuildResultVerbatimWindow | cross_allergen.py:114-137 | a window that occurs verbatim has a hit count ≥ 1 and, being at least 8 long, sets the exact-seed flag |
| Scoring.PerfectWindowCounts | cross_allergen.py:108-137 | a reported identity of 1.0 implies a window hit count ≥ 1 and the exact-seed flag for windows of 8 or more |
| KeepBest.FirstIndex | cross_allergen.py:186 | the first position with a given key, or the length when the key is absent |
| KeepBest.StepHolds | cross_allergen.py:184-187 | one loop step keeps the table's invariant: distinct keys, first-seen order, every key covered, and each entry the first strictly best element of its key |
| KeepBest.KeepBestUpToHolds | cross_allergen.py:183-187 | the invariant holds after every prefix of the input |
| KeepBest.KeepBestSpec | cross_allergen.py:182-188 | the result has one entry per key in first-seen order; each entry is that key's highest-scoring element, and the earliest one on ties |
| KeepBest.KeepBestDistinct | cross_allergen.py:182-188 | an input whose keys are already distinct passes through unchanged |
| KeepBest.KeepBestIdempotent | cross_allergen.py:182-188 | applying the loop twice gives the same as once |
| KeepBest.SortKeepsKeysDistinct | cross_allergen.py:210-211 | sorting a deduplicated list keeps its keys distinct |
| StableSort.SortPermutes | cross_allergen.py:211 | sorting is a permutation of its input |
| StableSort.SortSorted | cross_allergen.py:211 | the output is ordered by the key |
| StableSort.SortStable | cross_allergen.py:211 | elements with equal keys keep their input order |
| StableSort.SortBySpec | cross_allergen.py:211 | the sort is a stable, ordered permutation |
| StableSort.StableSortUnique | cross_allergen.py:211 | two stable, ordered permutations of the same input are equal |
| StableSort.AnyStableSortIsSortBy | cross_allergen.py:211 | any stable sort of the input (Python's included) equals the modelled sort |
| Pipeline.Sweep | cross_allergen.py:165-173 | a sweep returns at most one result per database record |
| Pipeline.SweepFails | cross_allergen.py:165-173 | the sweep fails exactly when `check_one_target` fails on some record |
| Pipeline.SweepMembers | cross_allergen.py:165-173 | a result is in a successful sweep exactly when `check_one_target` reports it for some record |
| Pipeline.Outcomes | cross_allergen.py:165-173 | one `check_one_target` outcome per database record, in database order |
| Pipeline.SweepIsFiltered | cross_allergen.py:165-173 | a successful sweep is the per-record outcomes with the falsy ones dropped, in database order, so each result occurs once per record that reports it (equal multisets) |
| Pipeline.SweepThresholdMonotone | cross_allergen.py:111-173 | raising the identity threshold does not change whether the sweep fails, and only removes results |
| Pipeline.TargetThresholdMonotone | cross_allergen.py:111-112 | a target reported at a higher threshold is reported identically at a lower one |
| Pipeline.BuildResultIgnoresThreshold | cross_allergen.py:114-155 | the threshold decides only whether a result is built, not its contents |
| Pipeline.DedupByOsSpec | cross_allergen.py:182-188 | one result per organism, in first-seen order, each the first with that organism's highest score |
| Pipeline.DedupEntries | cross_allergen.py:182-188 | every kept result is an input result, and no input result of the same organism scores higher |
| Pipeline.DedupIdempotent | cross_allergen.py:182-188 | deduplicating twice is deduplicating once |
| Pipeline.ByScoreDescIsPreorder | cross_allergen.py:211 | "score at least" is a total preorder, so the stable-sort facts apply |
| Pipeline.SortByScoreSpec | cross_allergen.py:211 | the per-query sort permutes the hits into descending score order and is stable |
| Pipeline.Tag | cross_allergen.py:212-213 | every hit is tagged with the query id, in the same order |
| Pipeline.ByQueryThenScoreIsPreorder | cross_allergen.py:228 | the `(query_id, -score)` key order is a total preorder |
| Pipeline.SortByQuerySpec | cross_allergen.py:228 | the final sort permutes all hits into query-id order, with descending score within a query |
| Pipeline.PredictParams | cross_allergen.py:206 | the fixed arguments (window 80, threshold 0.35) are valid sweep parameters |
| Pipeline.Rows | cross_allergen.py:252-256 | one row per hit, in order, with the id cut to the accession |
| Pipeline.ReportedHasAccession | cross_allergen.py:95-173 | every swept result has an id with an accession field |
| Pipeline.SortedDedupMembers | cross_allergen.py:209-211 | each query's block consists of its own sweep results, in descending score |
| Pipeline.SortedDedupDistinct | cross_allergen.py:209-211 | each query's block has at most one hit per organism |
| Pipeline.BlockSpec | cross_allergen.py:209-214 | a tagged block carries the query id, holds only sweep results, has distinct organisms, and descends in score |
| Pipeline.QueryHitsSpec | cross_allergen.py:201-214 | one query contributes hits reported for its upper-cased residues, one per organism, in descending score |
| Pipeline.CollectMembers | cross_allergen.py:198-214 | every collected hit comes from some query's own deduplicated sweep |
| Pipeline.CollectedHaveAccession | cross_allergen.py:252-256 | every collected id has a second pipe-separated field, so the id split cannot raise |
| Pipeline.RowsOfHits | cross_allergen.py:228-256 | the table has one row per collected hit, and each row is a collected hit with its id cut to the accession |
| Pipeline.RowsOrdered | cross_allergen.py:228-256 | table rows are in query-id order, with descending score within a query |
| Pipeline.PredictCrossAllergenOutcome | cross_allergen.py:198-225 | the prediction fails exactly when a sweep fails, and returns nothing exactly when no query produced a hit |
| Pipeline.PredictCrossAllergenRows | cross_allergen.py:198-256 | a returned table has one row per collected hit, each derived from a hit of its own query; rows are ordered by query id, then by descending score |
| Organism.TailMatchesIff | cross_allergen.py:178 | the executable tail test agrees with the regex tail: optional whitespace, then `OX=`, `GN=`, `PE=`, `SV=` or the end (before an optional final newline) |
| Organism.TagNotSpace | cross_allergen.py:178 | no annotation tag starts at a whitespace character |
| Organism.LazyFromSpec | cross_allergen.py:178 | the lazy group `[^=]+?` takes the shortest `=`-free run that the tail accepts, and finds none only when no length works |
| Organism.SearchFrom | cross_allergen.py:178 | a match found lies inside the description, with a non-empty group |
| Organism.SearchFromSound | cross_allergen.py:178 | the match found matches the pattern, with the shortest group at its start |
| Organism.NoMatchAt | cross_allergen.py:178 | no `OS=` or no acceptable group length means no match at that position |
| Organism.SearchFromLeftmost | cross_allergen.py:178 | no earlier position matches |
| Organism.SearchFromNone | cross_allergen.py:178 | when the search fails, no position matches |
| Organism.FirstMatchUnique | cross_allergen.py:178 | the leftmost, shortest match is unique |
| Organism.SearchFindsFirst | cross_allergen.py:178 | the search finds the leftmost position and the shortest group, as `re.search` does |
| Organism.OsGroupOfMatch | cross_allergen.py:178 | group 1 is the description slice after `OS=` of the leftmost, shortest match |
| Organism.OsGroupSpec | cross_allergen.py:178 | the group is absent exactly when the pattern matches nowhere, and it never contains `=` |
| Organism.ExtractOsSpec | cross_allergen.py:176-179 | without a match the organism is "Unknown"; with one it is the stripped group, which contains no `=` |
| Organism.BlankOrganism | cross_allergen.py:178-179 | `OS= OX=1` yields the empty organism name, since the group is a single space |
| Organism.GetGenus | app.py:53-54 | `get_genus` raises exactly on an all-whitespace name, and otherwise returns a non-empty, whitespace-free word |
| Organism.GetGenusFirstWord | app.py:53-54 | the genus is the name's first word: only whitespace before it, and whitespace or the end right after it |
| SpeciesSummary.Name | app.py:110-112 | each hit is paired with its organism and its score, in order |
| SpeciesSummary.GroupStep | app.py:110-112 | one append to the `defaultdict` keeps the grouping invariant |
| SpeciesSummary.GroupUpToHolds | app.py:108-112 | the grouping invariant holds after every prefix of the hits |
| SpeciesSummary.GroupUpToSpec | app.py:108-112 | one group per organism, in first-seen order; each group's scores are that organism's scores in hit order |
| SpeciesSummary.GroupUpToTotal | app.py:108-112 | the groups hold as many scores as there were hits |
| SpeciesSummary.GroupScoresSpec | app.py:108-112 | the organisms are distinct, each group lists its organism's scores, and no score is lost |
| SpeciesSummary.NamedHaveGroups | app.py:108-112 | every hit's organism has a group |
| SpeciesSummary.GroupsAreNamed | app.py:108-112 | every group belongs to some hit's organism |
| SpeciesSummary.MaxOf | app.py:119 | `max(scores)` is one of the scores and at least every score |
| SpeciesSummary.SumAtMost | app.py:120 | a sum of scores bounded by `b` is at most `n * b` |
| SpeciesSummary.MeanAtMostMax | app.py:119-120 | the average score never exceeds the maximum |
| SpeciesSummary.MakeEntrySpec | app.py:116-122 | an entry carries its organism and genus; its maximum is one of the scores and bounds all of them; average ≤ maximum; hits = number of scores |
| SpeciesSummary.SummaryStep | app.py:115-118 | the summary fails at the first group if its organism is blank, and otherwise where the rest fails |
| SpeciesSummary.SummaryFails | app.py:114-122 | summarising fails exactly when some organism name is all whitespace, where `get_genus` raises |
| SpeciesSummary.SummaryEntries | app.py:114-122 | one entry per group, in order, with the group's genus and statistics |
| SpeciesSummary.BlankGroupIsNamed | app.py:108-118 | a blank group organism comes from a blank hit organism |
| SpeciesSummary.BlankNameIsGroup | app.py:108-118 | a blank hit organism yields a blank group |
| SpeciesSummary.BestPerGenusMembers | app.py:124-128 | the kept entries come from the summary; none is beaten by an entry of its genus; every genus is represented |
| SpeciesSummary.BestPerGenusSpec | app.py:124-130 | one entry per genus, by descending best score; each is the best of its genus, and every genus appears |
| SpeciesSummary.SummarizeSpec | app.py:107-130 | fails exactly when some hit's organism is blank; otherwise it is the genus-deduplicated, sorted summary of one entry per organism |
| SpeciesSummary.ScoresOfMember | app.py:108-110 | a score is in an organism's score list exactly when some hit of that organism carries it |
| SpeciesSummary.HitHasEntry | app.py:108-120 | every hit lands in its organism's summary entry, whose genus is the hit's genus and whose `max_score` is at least the hit's score |
| SpeciesSummary.EntryHasHit | app.py:108-120 | every summary entry's `max_score` is the score of some hit of its organism and genus |
| SpeciesSummary.BestPerGenusFrom | app.py:122-128 | every kept entry is a summary entry |
| SpeciesSummary.BestPerGenusUnbeaten | app.py:122-128 | no summary entry of a kept entry's genus has a higher `max_score` |
| SpeciesSummary.BestPerGenusCovers | app.py:122-128 | every genus of the summary has a kept entry |
| SpeciesSummary.SummarizeGenusAttained | app.py:105-128 | each returned entry's `max_score` is the score of some hit whose organism has that genus |
| SpeciesSummary.SummarizeGenusBound | app.py:105-128 | each returned entry's `max_score` is at least the score of every hit whose organism has that genus: it is the genus maximum over all hits |
| SpeciesSummary.SummarizeGenusCovered | app.py:105-128 | the genus of every hit has a returned entry |
| SpeciesSummary.BestPerGenusTies | app.py:122-128 | the kept entry of a genus is the earliest summary entry with the genus maximum, genera keep the order of first appearance, and the descending sort keeps equal scores in that order |
| SpeciesSummary.SummarizeEmpty | app.py:107-130 | no hits give an empty summary |
| Evaluation.BinarizeScores | eval.py:40-41 | one prediction per score, each 0 or 1 |
| Evaluation.BinarizeMeaning | eval.py:41 | a prediction is 1 exactly when its score is at least the threshold |
| Evaluation.BinarizeMonotone | eval.py:41 | raising the threshold never turns a 0 into a 1 |
| Evaluation.BinarizeAppend | eval.py:48-50 | binarising concatenated score lists is the concatenation of the binarised lists |
| Evaluation.SingleSweep | eval.py:26-28 | a one-record sweep yields that record's result alone, nothing, or its failure |
| Evaluation.SampleScoreSpec | eval.py:19-32 | a sample without exactly two records is skipped; otherwise its score is the pair's reported score, or 0.0 when nothing is reported, and it fails exactly when the pair does |
| Evaluation.SampleScoreBounds | eval.py:28-32 | a sample's score lies in [0, 1.1] |
| Evaluation.ReportedScoreAtLeastThreshold | cross_allergen.py:111-139 | with epitopes off, any reported pair scores at least 0.35 |
| Evaluation.PredictionIsMatch | eval.py:28-41 | with epitopes off and threshold 0.35, a sample is predicted 1 exactly when the pair produced a match |
| Evaluation.Pairs | eval.py:21-23 | only samples with exactly two records are kept |
| Evaluation.EvaluateDirectoryFails | eval.py:17-37 | a directory fails exactly when some sample fails |
| Evaluation.EvaluateDirectoryShape | eval.py:17-37 | one label and one score per two-record sample; every label is the directory's class label |
| Evaluation.EvaluateDirectoryStep | eval.py:17-35 | a skipped sample adds nothing; a scored sample puts its score in front |
| Evaluation.EvaluateDirectoryScores | eval.py:28-35 | the `k`-th score is the score of the `k`-th two-record sample |
| Evaluation.EvaluateAllFails | eval.py:44-46 | `evaluate_all` fails exactly when a sample of either directory fails |
| Evaluation.EvaluateAllLabels | eval.py:45-48 | labels are 1 for every positive sample, then 0 for every negative one |
| Evaluation.EvaluateAllScores | eval.py:45-50 | scores and predictions line up with the positive then the negative samples; a prediction is 1 exactly when its score reaches the threshold |
| Evaluation.EvaluateAllPredictionIsMatch | eval.py:44-50 | at the script's 0.35 threshold with epitopes off, each prediction is 1 exactly when `check_one_target` reported that sample's pair |

## Left out

- File and network I/O is not modelled:
  - FASTA parsing with `SeqIO` becomes `SeqRecord` values;
  - the `epitope_map.json` and `epitope_info.json` loading becomes an `EpitopeMap` parameter, and `epitope_info` is unused by the core;
  - directory listings and the numeric file-name sort of `evaluate_directory` become a sequence of samples already in file order;
  - report writing, `print`, timing and `tqdm` progress bars are left out.
- Multiprocessing is not modelled. `Pool`, `n_jobs` and `imap_unordered` become a sequential sweep that fixes one arrival order, database order. Arrival order matters downstream: `dedup_by_os` replaces an organism's hit only on a strictly greater score, so the order decides which of several equal-score hits of an organism survives and the order in which organisms are first seen, and through the stable sort of `predict_cross_allergen` it decides the order of equal-score hits in the final table. `Pipeline.DedupByOsSpec`'s "earliest on ties" and "first-seen order" hold for database order only; under real unordered arrival they hold for whatever order the results arrived in. Arrival order can also change which worker's exception surfaces first when several fail; the model reports the first failing record in database order.
- Floating point is not modelled: scores and identities are exact reals. `1 - d / win` and the damping product are not rounded, so ties that rounding could create or break are not modelled.
- Window sizes ≤ 0 are excluded by `Scoring.ValidParams`. Every call site passes 80, and a window of 0 would divide by zero.
- Character handling is only partly modelled. `str.upper` is modelled for ASCII letters only. Whitespace (regex `\s`, `strip()`, `split()`) is modelled for code points below 256 only.
- `sliding_window_identity` (pairwise2 global alignment) is never called by the core and is not modelled. Its edlib twin `sliding_window_identity_fast` is modelled.
- The `local_enabled=FALSE` keyword default of `check_cross_parallel` is not modelled. It imports `FALSE` from `pickle`, a non-empty and therefore truthy bytes value, but every caller in the core passes the flag explicitly.
- `predict_cross_allergen`'s query-file list is a parameter. The pandas `DataFrame` assembly (cross_allergen.py:247-260) is modelled only as the row sequence (`Pipeline.Rows`), and the returned `None` is `Ok(None)`.
- `main`, `load_results`, `parse_allergen_text`, the Streamlit page, and st_func.py are not part of this model.
- The `evaluate_all` metrics and plots (classification report, ROC and PR curves, AUC values) are not modelled.
- `k` and `cpu` of `predict_cross_allergen` are not modelled: `k` is unused, and `cpu` only sizes the pool.
- Pipeline.PredictCrossAllergenRows: states that there are as many rows as collected hits, that each row comes from a collected hit, and that rows are ordered. It does not state that the rows are exactly the collected hits counted with multiplicity. That follows from `Pipeline.SortByQuerySpec` (a permutation) and `Pipeline.Rows` (row by row).
- Pipeline.SweepThresholdMonotone: states that the result set shrinks (subset), not a comparison of list lengths.
