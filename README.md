# Voting-rule scoring functions, modelled and verified in Dafny

This project models the scoring rules of a project on election rules. Each
rule is a function `score(profile, candidate)`. A *profile* is a list of
`(frequency, ballot)` pairs plus a candidate list. A *ballot* is a best-first
list of candidate identifiers. It need not mention every candidate: such a
ballot is a *distorted* profile's truncated ballot.

The model covers:

- the positional rules (plurality, Borda, veto, three k-approval variants,
  Dowdall as coded, two Borda-gamma variants, and the Borda/veto hybrid that
  switches on the profile's distortion ratio);
- the pairwise rules (maximin, Simpson, Copeland). These read the
  profile's net-preference query;
- the exhaustive Kemeny search;
- the elimination tabulator (`stv_rule_elishay`);
- the Borda-prefilter + Kemeny hybrid (`idea_rule`);
- `find_winner`;
- the permutation search and the ranking adapter of `brute_force_eval.py`.

Shared data model (`profiles.dfy`):

- `Profile(candidates: seq<int>, pairs: seq<(nat, seq<int>)>)`.
- The candidate list's order stands for the iteration order of the
  profile's candidate set. It fixes the order in which permutations are
  enumerated (`permutations.dfy`, the `itertools.permutations` order).
- The net preference of the profile (`profile.get_net_preference`) and the
  utility evaluator (`get_rule_utility`) belong to a library whose source is
  not part of this model. They are function parameters.
- Python floats are exact `real`s.
- Loops that build a list or update a dictionary in place are methods with
  loop invariants. Each is proved against a specification function.
  Comprehensions and `sum`/`min`/`max` are functions. Properties are lemmas
  about those functions.

Modules: `Seqs`, `Sums`, `Profiles`, `Itertools` and `Sorting` hold shared
vocabulary. There is one module per rule file: `Plurality`, `Borda`, `Veto`,
`BordaVetoHybrid`, `KApproval`, `KApprovalSubmission`, `KApprovalPercentage`,
`Dowdall`, `BordaGamma`, `BordaGammaSubmission`, `Maximin`, `Simpson`,
`Copeland`, `Runoff`, `StvElishay`, `Kemeny`, `Idea`, and `BruteForce` for
`brute_force_eval.py`.

Points where the model follows the code rather than a rule's textbook
definition:

- **Dowdall.** `dowdall_rule` weighs position `i` by `(C − 1 − i) / (i + 1)`,
  not by `1 / (i + 1)`. The model uses the coded weight.
- **Kemeny.** The Kemeny "Kendall tau" compares the candidate *identifiers*
  found at equal positions of the ballot and the permutation. It does not
  compare the candidates' positions. The model uses the coded comparison.
- **STV.** The elimination tabulator does not transfer votes. Every round
  re-tallies `ballot[0]` of every pair, whoever was eliminated. So a live
  candidate's tally is the same every round, and the elimination order is
  the order of first-place tallies, ties broken arbitrarily. The model
  follows that.
- **Copeland.** The Copeland rule lives in `rules/example_rule.py`.
  `rules/idea.py` imports it from a module `rules.copeland_rule`, which does
  not exist. It also imports `k_approval_rule` and `borda_gamma_rule`, which
  the named modules do not define (they define `build_…` factories), so
  that module's imports fail as written. The model treats `idea_rule` as if
  its imports resolved. It uses only `borda_rule` and `kemeny_rule`, the
  two rules that function calls.

## Model

| member | source | states |
|---|---|---|
| Plurality.PluralityRule | rules/plurality_rule.py:16-19 | the `Counter` lookup of the frequency-expanded first choices equals the frequency-weighted first-place tally |
| Plurality.FirstChoices | rules/plurality_rule.py:16 | the expanded list has one entry per voter (length = sum of frequencies); every pair with voters needs a non-empty ballot |
| Plurality.FirstChoicesCount | rules/plurality_rule.py:16-19 | counting the expanded list equals the sum of frequencies of pairs whose ballot starts with the candidate |
| Plurality.PluralityNeverFirst | rules/plurality_rule.py:19 | a candidate heading no ballot scores 0 |
| Plurality.PluralityBounds | rules/plurality_rule.py:16-19 | the score lies in `[0, Σ frequency]` |
| Plurality.PluralityTotal | rules/plurality_rule.py:16-17 | when every ballot is headed by one of the distinct candidates the scores over all candidates add up to `Σ frequency` |
| Borda.BordaRule | rules/borda_rule.py:4-11 | a candidate that no ballot names scores 0, since only ballots containing it are summed |
| Borda.BordaOnlyContaining | rules/borda_rule.py:5-11 | the score is the sum over the pairs naming the candidate, each giving `frequency × (C − 1 − index)`; the others give nothing |
| Borda.BordaBounds | rules/borda_rule.py:5-11 | with ballots no longer than `C` the score lies in `[0, (C − 1) × Σ frequency]` |
| Borda.BordaFirstEverywhere | rules/borda_rule.py:5-8 | a candidate first on every ballot scores exactly `(C − 1) × Σ frequency` |
| Borda.FullBallotPoints | rules/borda_rule.py:5-11 | one full ballot hands out `frequency × C(C − 1)/2` points over all candidates |
| Borda.BordaTotal | rules/borda_rule.py:5-11 | with full-length ballots the scores over all candidates add up to `Σ frequency × C(C − 1)/2` |
| Veto.VetoRule | rules/veto_rule.py:4-18 | the loop returns minus the frequency sum of the pairs that veto the candidate: a distorted ballot (length ≠ `C`) vetoes an absent candidate, a full ballot its last entry |
| Veto.VetoBounds | rules/veto_rule.py:5-18 | the score lies in `[−Σ frequency, 0]` |
| Veto.VetoUnvetoed | rules/veto_rule.py:10-18 | a candidate present on every distorted ballot and never last on a full one scores 0 |
| Veto.VetoTotal | rules/veto_rule.py:12-16 | with full-length ballots over distinct candidates the scores add up to `−Σ frequency` |
| BordaVetoHybrid.DistortionRatio | rules/borda_veto_hybrid_rule.py:8-9 | the ratio is at most 1, and equals 1 exactly when every ballot is empty; there must be a pair and a candidate (the divisions) |
| BordaVetoHybrid.LengthSumZero | rules/borda_veto_hybrid_rule.py:8 | the summed ballot length is 0 exactly when every ballot is empty |
| BordaVetoHybrid.BordaVetoHybridRule | rules/borda_veto_hybrid_rule.py:3-35 | at distortion ratio ≥ 0.8 the result is the veto score (so it lies in `[−Σ frequency, 0]`), below 0.8 it is the Borda score; there must be a pair and a candidate (the divisions) |
| BordaVetoHybrid.LengthSumFull | rules/borda_veto_hybrid_rule.py:8 | full ballots make the summed length `#pairs × C` |
| BordaVetoHybrid.LengthSumWithin | rules/borda_veto_hybrid_rule.py:8 | ballots of length ≤ `C` make the summed length ≤ `#pairs × C` |
| BordaVetoHybrid.FullBallotsUseBorda | rules/borda_veto_hybrid_rule.py:8-11 | full-length ballots make the (unweighted) distortion ratio 0, so the Borda branch is taken |
| BordaVetoHybrid.DistortionRatioBounds | rules/borda_veto_hybrid_rule.py:8-9 | with ballots no longer than `C` the ratio lies in `[0, 1]` |
| KApproval.PrefixLength | rules/k_approval_rule.py:9 | the length Python's slice `ballot[:k]` keeps: `min(k, len)` for `k ≥ 0`, never more than the ballot |
| KApproval.KApprovalRule | rules/k_approval_rule.py:5-13 | the in-place tally loop returns the sum over pairs of `frequency × occurrences of the candidate in ballot[:k]`; the candidate and every approved entry must be tally keys |
| KApproval.Approve | rules/k_approval_rule.py:10-11 | the inner loop adds the frequency once per approved occurrence and keeps the key set |
| KApproval.KApprovalUnapproved | rules/k_approval_rule.py:6-13 | a candidate in no approved prefix keeps its initial 0 |
| KApproval.ApprovalTermDistinct | rules/k_approval_rule.py:9-11 | on a duplicate-free ballot a pair gives its frequency exactly when the candidate is among the first `k` entries |
| KApproval.KApprovalBounds | rules/k_approval_rule.py:9-11 | on duplicate-free ballots the score is the frequency sum of the approving pairs and lies in `[0, Σ frequency]` |
| KApproval.KApprovalMonotone | rules/k_approval_rule.py:9 | a larger `k ≥ 0` never lowers a score |
| KApproval.KApprovalOneIsPlurality | rules/k_approval_rule.py:9 | `k = 1` gives the plurality tally |
| KApproval.KApprovalTotal | rules/k_approval_rule.py:8-11 | over distinct candidates the tallies add up to `Σ frequency × len(ballot[:k])`, i.e. `Σ frequency × min(k, len(ballot))` for `k ≥ 0` |
| KApprovalSubmission.KApprovalSubmissionRule | rules/k_approval_rule_submission_version.py:3-14 | the result is k-approval with `k = 9` |
| KApprovalSubmission.SubmissionLateCandidate | rules/k_approval_rule_submission_version.py:10-14 | a candidate at index ≥ 9 on every ballot naming it scores 0 |
| KApprovalSubmission.SubmissionBounds | rules/k_approval_rule_submission_version.py:9-12 | on duplicate-free ballots the score lies in `[0, Σ frequency]` |
| KApprovalSubmission.SubmissionTotal | rules/k_approval_rule_submission_version.py:9-12 | the tallies add up to `Σ frequency × min(9, len(ballot))` |
| KApprovalPercentage.Ceil | rules/k_approval_rule_percentage_version.py:9 | `math.ceil`: the least integer not below `x` |
| KApprovalPercentage.DerivedK | rules/k_approval_rule_percentage_version.py:9 | `k ≥ 2`, `k ≥ C × p / 100`, and `k` is the least such integer unless it is the floor 2 |
| KApprovalPercentage.KApprovalPercentageRule | rules/k_approval_rule_percentage_version.py:8-12 | the result is k-approval with the derived `k` |
| KApprovalPercentage.PercentageApprovesAll | rules/k_approval_rule_percentage_version.py:9-11 | for `p ≥ 100` the derived `k` covers every ballot and the score is the frequency sum of the pairs naming the candidate |
| Dowdall.DowdallRule | rules/dowdall_rule.py:4-11 | a candidate that no ballot names scores 0 |
| Dowdall.DowdallOnlyContaining | rules/dowdall_rule.py:5-11 | the score is the sum over pairs naming the candidate of `frequency × (C − 1 − index)/(index + 1)`; others give 0 |
| Dowdall.DowdallFirstPlace | rules/dowdall_rule.py:7 | a first place gives `frequency × (C − 1)` |
| Dowdall.DowdallLastPlace | rules/dowdall_rule.py:7 | last place on a full duplicate-free ballot gives 0 |
| Dowdall.DowdallTermBounds | rules/dowdall_rule.py:7 | with a ballot no longer than `C` a pair gives between 0 and `frequency × (C − 1)` |
| Dowdall.DowdallBounds | rules/dowdall_rule.py:5-11 | with ballots no longer than `C` the score lies in `[0, (C − 1) × Σ frequency]` |
| BordaGamma.BordaGammaRule | rules/borda_gamma_rule.py:4-13 | for every `γ`, a candidate that no ballot names scores 0 |
| BordaGamma.PowOne | rules/borda_gamma_rule.py:7 | `1 ** e == 1` |
| BordaGamma.PowUnitBounds | rules/borda_gamma_rule.py:7 | for `0 ≤ γ ≤ 1` the powers lie in `[0, 1]` and do not grow with the exponent |
| BordaGamma.PowAntitone | rules/borda_gamma_rule.py:7 | for `0 ≤ γ ≤ 1` a larger exponent never gives a larger power |
| BordaGamma.GammaOnlyContaining | rules/borda_gamma_rule.py:6-11 | the score is the sum over pairs naming the candidate of `frequency × γ^index` |
| BordaGamma.GammaOneCountsMentions | rules/borda_gamma_rule.py:6-11 | with `γ = 1` the score is the frequency sum of the pairs naming the candidate |
| BordaGamma.GammaZeroIsPlurality | rules/borda_gamma_rule.py:6-11 | with `γ = 0` the score is exactly the first-place tally of the plurality rule, because `0.0 ** 0 == 1` and every other power is 0 |
| BordaGamma.GammaFirstPlace | rules/borda_gamma_rule.py:7 | a first place gives exactly the frequency |
| BordaGamma.GammaTermBounds | rules/borda_gamma_rule.py:7 | for `0 ≤ γ ≤ 1` each term lies in `[0, frequency]` |
| BordaGamma.GammaBounds | rules/borda_gamma_rule.py:6-11 | for `0 ≤ γ ≤ 1` the score lies in `[0, Σ frequency]` |
| BordaGamma.GammaEarlierNotWorse | rules/borda_gamma_rule.py:7 | for `0 ≤ γ ≤ 1` an earlier position never gives a smaller term than a later one |
| BordaGammaSubmission.BordaGammaSubmissionRule | rules/borda_gamma_rule_submission_version.py:6-12 | a candidate that no ballot names scores 0 |
| BordaGammaSubmission.SubmissionTerm | rules/borda_gamma_rule_submission_version.py:3-10 | with `GAMMA = 0.1` a pair naming the candidate at index `r` gives `frequency × 0.1^r`, a pair not naming it gives 0 |
| BordaGammaSubmission.SubmissionOnlyContaining | rules/borda_gamma_rule_submission_version.py:7-12 | the score is the sum over the pairs naming the candidate |
| BordaGammaSubmission.SubmissionBounds | rules/borda_gamma_rule_submission_version.py:7-12 | the score lies in `[0, Σ frequency]` |
| Maximin.MaximinRule | rules/maximin_rule.py:4-14 | the nested loop and `min` give a score in `[0, every pair's frequency]`; it is 0 unless the candidate beats every rival, then some pair's frequency (the smallest); it needs a pair and a rival |
| Maximin.AppendRow | rules/maximin_rule.py:9-13 | the inner loop appends, for each other candidate, the frequency if the candidate beats it and 0 otherwise |
| Maximin.RowFacts | rules/maximin_rule.py:9-13 | each appended entry is the frequency or 0, the frequency only if beating every rival, and every rival contributes its entry |
| Maximin.ListNonNegative | rules/maximin_rule.py:8-13 | every entry of the whole list is non-negative |
| Maximin.ListHasEntries | rules/maximin_rule.py:8-13 | the list contains the entry of every (pair, rival) combination |
| Maximin.ListFrequencies | rules/maximin_rule.py:8-13 | when the candidate beats all rivals every entry is some pair's frequency |
| Maximin.MaximinCharacterization | rules/maximin_rule.py:8-14 | the minimum is ≥ 0, ≤ every frequency, 0 unless the candidate beats all, and a pair's frequency when it does |
| Simpson.Without | rules/simpson_rule.py:7 | `candidates - {candidate}`: exactly the other candidates |
| Simpson.NetScores | rules/simpson_rule.py:5-8 | the list holds the net preference against each other candidate, in order |
| Simpson.SimpsonRule | rules/simpson_rule.py:4-9 | the score is at most the net preference against every other candidate and equal to one of them; it needs a rival |
| Simpson.SimpsonPositiveIffBeatsAll | rules/simpson_rule.py:5-9 | the score is positive exactly when the candidate beats every other candidate |
| Simpson.SimpsonPositiveUnique | rules/simpson_rule.py:5-9 | with an antisymmetric net preference, a positive score for one candidate makes every other's negative |
| Simpson.SimpsonMonotone | rules/simpson_rule.py:5-9 | raising the candidate's net preferences never lowers the score |
| Simpson.SimpsonAgreesWithMaximin | rules/simpson_rule.py:5-9 | when every pair has voters, Simpson is positive exactly when maximin is |
| Copeland.Sign | rules/example_rule.py:9 | `np.sign`: 1, −1 or 0 exactly as the value is positive, negative or zero |
| Copeland.CopelandRule | rules/example_rule.py:5-11 | the loop returns the number of candidates beaten minus the number beating the candidate, the candidate itself included |
| Copeland.SignsSum | rules/example_rule.py:7-11 | the sum of the signs is wins minus losses |
| Copeland.WinsLossesBound | rules/example_rule.py:9 | wins plus losses is at most the number of candidates |
| Copeland.WinsLossesTie | rules/example_rule.py:7-9 | with an antisymmetric net preference the candidate ties with itself, so wins plus losses ≤ `C − 1` |
| Copeland.WinsAll | rules/example_rule.py:7-11 | with an antisymmetric net preference wins ≤ `C − 1`, with equality exactly when the candidate beats everyone else |
| Copeland.WinsNoneMissing | rules/example_rule.py:7-11 | over entries other than the candidate, wins are all of them exactly when it beats them all |
| Copeland.CopelandLocal | rules/example_rule.py:8 | changing the net preference only at pairs not starting with the candidate leaves its score unchanged |
| Copeland.CopelandBounds | rules/example_rule.py:7-11 | the score lies in `[−C, C]` |
| Copeland.CopelandZeroSum | rules/example_rule.py:7-11 | with an antisymmetric net preference the scores of the candidates in any list add up to 0: each win of one is a loss of another |
| Copeland.CopelandCondorcetWinner | rules/example_rule.py:7-11 | with an antisymmetric net preference the score is ≤ `C − 1`, and equals it exactly when the Simpson score is positive |
| Runoff.MaxPoint | rules/runoff_rule.py:46-49 | `max_point` is ≥ 0, ≥ every value, and either 0 or one of the values |
| Runoff.KeysWithValue | rules/runoff_rule.py:51-54 | the keys collected are exactly those holding the value, no more than the entries |
| Runoff.FindWinner | rules/runoff_rule.py:45-56 | the two loops return the keys whose value equals `max(0, max of values)`, in key order |
| Runoff.MaxPointIsFlooredMax | rules/runoff_rule.py:46-49 | `max_point` is 0 for an empty or non-positive dictionary and the largest value otherwise |
| Runoff.SomePositive | rules/runoff_rule.py:46-56 | with a positive value the result is non-empty and every returned key holds the largest value |
| Runoff.AllNegative | rules/runoff_rule.py:46-56 | if all values are negative (or there are none) the result is empty |
| Runoff.OutsideIsBelow | rules/runoff_rule.py:46-54 | a key outside the result holds a value below `max_point` |
| StvElishay.StvRuleElishay | rules/stv_rule_elishay.py:6-39 | the score is one plus the candidate's place in some elimination order: `n − 1` rounds each removing a live candidate of least first-place tally (any one among ties), the survivor last |
| StvElishay.ChooseEliminated | rules/stv_rule_elishay.py:16-28 | after a round's tally every live slot holds its first-place tally, and the chosen candidate is live and of least tally, so it extends the elimination order |
| StvElishay.ResetLive | rules/stv_rule_elishay.py:32 | every live slot goes back to 0 and eliminated slots keep their value |
| StvElishay.CrownSurvivor | rules/stv_rule_elishay.py:36-39 | the survivor receives score `n`, and the candidate's score is one plus its place in a complete elimination order |
| StvElishay.AddFirstChoices | rules/stv_rule_elishay.py:16-17 | after the tally every live slot holds the frequency sum of the pairs whose first entry it is; eliminated slots stay eliminated |
| StvElishay.LiveMinimum | rules/stv_rule_elishay.py:20 | the minimum over live slots (eliminated ones are infinite) is attained and below every live tally |
| StvElishay.MinIndices | rules/stv_rule_elishay.py:21 | exactly the live slots holding the minimum |
| StvElishay.FirstLive | rules/stv_rule_elishay.py:37 | the first slot not eliminated |
| StvElishay.EliminationStep | rules/stv_rule_elishay.py:20-34 | eliminating a least-tally live candidate extends an elimination order |
| StvElishay.Survivor | rules/stv_rule_elishay.py:36-38 | the one candidate left completes the order, which then lists every candidate |
| StvElishay.StvScoresArePermutation | rules/stv_rule_elishay.py:33-38 | the scores of the candidates are pairwise distinct and exactly `1..n` |
| StvElishay.StvSmallerTallyScoresLower | rules/stv_rule_elishay.py:17-34 | a strictly smaller first-place tally means an earlier elimination, so a lower score |
| StvElishay.StvSurvivorHasMaxTally | rules/stv_rule_elishay.py:20-38 | the survivor, scoring `n`, has the largest tally |
| StvElishay.StvSingleCandidate | rules/stv_rule_elishay.py:7-13 | with one candidate no round runs and it is the whole order |
| Itertools.Permutations | rules/chatGPTs_kemeny_rule.py:18 | the enumeration is non-empty and starts with the input order itself, as `itertools.permutations` does |
| Itertools.PermutationsSound | rules/chatGPTs_kemeny_rule.py:18 | every enumerated permutation is a rearrangement of the candidates |
| Itertools.PermutationsComplete | rules/chatGPTs_kemeny_rule.py:18 | every rearrangement of the candidates is enumerated |
| Kemeny.SearchRanking | rules/chatGPTs_kemeny_rule.py:18-40 | the search loop returns `KemenyRanking`, the first enumerated permutation of least distance |
| Kemeny.ComputeTauDistance | rules/chatGPTs_kemeny_rule.py:28-34 | the nested loop counts the position pairs `i < j` whose identifiers are ordered oppositely in ballot and permutation |
| Kemeny.ComputeDistance | rules/chatGPTs_kemeny_rule.py:24-36 | the distance is the frequency-weighted sum of the per-ballot counts |
| Kemeny.FirstMinIndex | rules/chatGPTs_kemeny_rule.py:20-40 | the kept permutation has least distance, and every earlier one has strictly greater distance (the strict `<`) |
| Kemeny.KemenyRanking | rules/chatGPTs_kemeny_rule.py:18-40 | the selected ranking is an enumerated rearrangement of the candidates |
| Kemeny.KemenyScore | rules/chatGPTs_kemeny_rule.py:42 | `C − index` lies in `[1, C]` |
| Kemeny.KemenyRule | rules/chatGPTs_kemeny_rule.py:16-43 | the search returns `C − position of the candidate in the first minimal permutation`; the candidate must be a candidate and ballots no longer than `C` |
| Kemeny.TauZeroOnAgreeingBallot | rules/chatGPTs_kemeny_rule.py:28-34 | a ballot equal to the permutation's prefix contributes 0 |
| Kemeny.TauDistanceBound | rules/chatGPTs_kemeny_rule.py:28-34 | a ballot of length `n` contributes between 0 and `n(n − 1)/2` |
| Kemeny.KemenyRankingOptimal | rules/chatGPTs_kemeny_rule.py:18-40 | the selected ranking's distance is ≤ that of every rearrangement of the candidates |
| Kemeny.KemenyScoreAtPosition | rules/chatGPTs_kemeny_rule.py:17-42 | the candidate at position `i` of the ranking scores `C − i`, so the first scores `C` |
| Kemeny.KemenyScoresArePermutation | rules/chatGPTs_kemeny_rule.py:40-42 | distinct candidates get distinct scores, and the scores are exactly `1..C` |
| Sorting.SortBy | rules/idea.py:19-21 | `sorted` returns a rearrangement of its input |
| Sorting.SortBySorted | rules/idea.py:19-21 | the result is in non-decreasing key order |
| Sorting.SortByStable | rules/idea.py:19-21 | elements with equal key keep their relative order |
| Idea.HeuristicScoreTable | rules/idea.py:15-17 | the dictionary maps exactly the candidates, each to its Borda score |
| Idea.SortByTable | rules/idea.py:19-21 | sorting the keys by the looked-up score is sorting the candidates by Borda score |
| Idea.KemenyCount | rules/idea.py:11-22 | the slice `[-7:]` keeps `min(n, 7)` entries |
| Idea.Keep | rules/idea.py:29 | the filtered ballot holds exactly the ballot's Kemeny-set entries |
| Idea.Drop | rules/idea.py:23 | the excluded list holds exactly the sorted candidates outside the Kemeny set |
| Idea.Restrict | rules/idea.py:28-31 | each pair keeps its frequency and its ballot filtered to the Kemeny set |
| Idea.RestrictedProfile | rules/idea.py:28-36 | the restricted profile has the given candidates, no more pairs than the original, and ballots naming Kemeny-set candidates only |
| Idea.IdeaScore | rules/idea.py:25-37 | an excluded candidate scores between `−(number excluded)` and −1, any other between 1 and the Kemeny candidate count, so the sign says which group a candidate is in |
| Idea.IdeaRule | rules/idea.py:14-37 | the result is minus the place from the end for an excluded candidate, and the Kemeny score on the restricted profile otherwise |
| Idea.SortedCandidatesFacts | rules/idea.py:19-21 | the sorted list holds each candidate once, in ascending Borda order, stable among equal scores |
| Idea.Partition | rules/idea.py:11-23 | Kemeny set and excluded list partition the candidates; the Kemeny set has `min(n, 7)` members and the excluded list is the sorted prefix |
| Idea.KemenySetIsTop | rules/idea.py:19-23 | every Kemeny-set candidate has a Borda score at least that of every excluded one |
| Idea.ExcludedScores | rules/idea.py:25-26 | excluded scores lie in `[−(n − 7), −1]`, are pairwise distinct, and the best excluded candidate gets −1 |
| Idea.KeepOrder | rules/idea.py:29 | filtering a duplicate-free ballot keeps it duplicate-free and keeps relative order |
| Idea.RestrictedPairsFacts | rules/idea.py:28-31 | the restricted pairs are exactly the filtered pairs, with pairs that became equal collapsed into one |
| Idea.RestrictedBallotsFit | rules/idea.py:28-37 | filtered duplicate-free ballots have at most 7 entries |
| Idea.KemenyAboveExcluded | rules/idea.py:25-37 | a scorable Kemeny-set candidate scores ≥ 1 and every excluded one ≤ −1 |
| BruteForce.DummyRule | brute_force_eval.py:63-68 | `−(index + 1)` lies in `[−C, −1]` |
| BruteForce.DummyFirst | brute_force_eval.py:65 | the first-ranked candidate scores −1 |
| BruteForce.DummyDecreasing | brute_force_eval.py:65 | scores strictly decrease along a duplicate-free ranking |
| BruteForce.DummyScoresExact | brute_force_eval.py:65 | the scores are pairwise distinct and exactly `{−1, …, −C}` |
| BruteForce.DummySortReproduces | brute_force_eval.py:65 | sorting the candidates by descending dummy score gives back the ranking |
| BruteForce.ConstructPairs | brute_force_eval.py:39-45 | the pair set holds exactly the entries' `(frequency, ballot)` tuples, each once |
| BruteForce.ConstructCollapses | brute_force_eval.py:40-43 | identical entries become a single pair |
| BruteForce.ScanPermutations | brute_force_eval.py:18-30 | over any non-empty sequence of permutations, each kept permutation is the first to reach the largest utility of its kind |
| BruteForce.BruteForceEval | brute_force_eval.py:12-32 | each best score is ≥ the utility of every permutation and is attained by the kept permutation, which is the first to reach it (strict `>`); `top` and `topn` are tracked independently |

## Left out

- The profile's net-preference query, `Profile` construction, `get_rule_utility` and the voter generators belong to a library that is not part of this model. The first two are parameters (`net`, `utility`); for `_construct_profile` the candidate list is a parameter.
- Idea.RestrictedProfile: the candidate list of `Profile(num_candidates=7, distorted=True)` is chosen inside that library, so it is the parameter `kemenyCandidates`. A Kemeny-set candidate is scored only when it is among them and the restricted ballots fit (the predicate `Scorable`).
- Python's `set` of pairs (in `idea_rule` and `_construct_profile`) is a sequence without duplicates, in first-occurrence order. A different iteration order would change only the enumeration-order tie-breaks of Kemeny.
- IEEE-754 rounding: gamma powers, Dowdall division, the percentage ceiling and the distortion ratio use exact reals; STV's float arrays use integers and an eliminated flag instead of `inf`.
- StvElishay.StvRuleElishay: `np.random.choice` is the nondeterministic choice of any minimal live candidate, so the contract says "some elimination order" and not which one. The model requires candidate indices and first entries in `[0, n)`, whereas numpy would also accept negative indices and count them from the end.
- The `runoff` function of rules/runoff_rule.py reads an undefined `self.pref_schedule` and only prints; only `find_winner` is modelled.
- rules/stv_rule.py (a wrapper around an external library's STV) and rules/log_rule.py (raises unconditionally) are not part of this model.
- `print` in `idea_rule`, `_store_and_print_results` (JSON dump and file write), and the progress bar in `brute_force_eval`.
- Evaluation and experiment scripts (random profiles, data frames, plots, CSV files) and random-seed utilities.
- The `copeland_rule`, `k_approval_rule` and `borda_gamma_rule` imports of rules/idea.py, which do not resolve, are not modelled; `idea_rule` uses neither.
