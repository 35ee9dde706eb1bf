# Quadratic Kenku solver: a verified model of its bookkeeping

The Quadratic Kenku Solver works out, for a quadratic field Q(sqrt(d)), which
cyclic isogeny degrees N occur for elliptic curves over that field, and how
many j-invariants admit each one. The program surrounds many computer-algebra
calls (ranks, modular symbols, class groups, isogeny classes, Magma point
counts) with exact integer, set and dictionary bookkeeping. This project
models that bookkeeping in Dafny and proves what it promises. Every
computer-algebra answer is an input: a field of the `Types.Oracles` record
or a parameter.

The model follows the source module by module:

- `SageUtils` (sage_code/utils.py) covers:
  - Algorithm 2.2 (`_minimally_finite_fast`, `minimally_finite`), the
    candidate levels: the zero-rank genus-one levels, AMF2, and the products
    b*p (p < 20) not already implied;
  - the divisibility reduction `is_multiple_of` / `remove_multiples`;
  - the Atkin-Lehner divisor test;
  - the three-way bucket split;
  - the "easy large values";
  - the plus-part Mordell-Weil checks.
- `HyperellipticVerifs` (sage_code/hyperelliptic_verifs.py) is the
  Najman-Trbovic ramification filter.
- `NonHyperellipticVerifs` (sage_code/non_hyperelliptic_verifs.py) covers
  the Oezman sieve, the minus-part checks and the Frobenius data list.
- `IsogenyGraphs` (sage_code/isogeny_graphs.py) covers `unrecorded_isogenies`,
  `isogeny_degrees` and the Sage-then-GP fallback.
- `KenkuSolver` (sage_code/quadratic_kenku_solver.py) covers:
  - `reducer`, as the class `CountDict`, whose method updates the dictionary
    in place;
  - `unique_j_inv_count`;
  - the per-level loops of `process_hyperelliptic` and
    `process_non_hyperelliptic`;
  - the genus-one stage;
  - the final merge in `quadratic_kenku_solver`.
- `LargePrimes` (sage_code/large_possible_isogeny_primes.py) is the `LPIP`
  constant.
- `LegacyUtils` (utils.py) is the older `minimally_finite`, which scans the
  levels 11 <= N < 800.
- `Arith`, `Types` and `Lists` hold shared arithmetic, the data model, and
  Python's `sorted` and `list.remove`.

How the source is represented:

- Counts are `Fin(n) | Inf`, so `+Infinity` is a value.
- `NotImplementedError`, `KeyError`, `ValueError`, the `list.remove`
  ValueError and the `assert z is not None` become `Err` values of a
  `Result`.
- j-invariants are pairs (a, b) standing for a + b*sqrt(d).
- Catalogue keys are integers.
- Methods carry the loops of the source. Each method is proved equal to a
  specification function, and the properties are proved about those
  functions.

Where the written description of the system and the code disagree, the model
follows the code:

- For d = 213 the code uses the discriminant 213, because 213 is 1 mod 4.
  The description says 852. In the code, 2 is therefore not a ramified
  prime there (`HyperellipticVerifs.RamifiedAt213`).
- The Oezman sieve in the code has no "condition 3" step on the inert odd
  primes dividing N. The model has none either.
- The polarity follows the code:
  - `try_najman_trbovic_filter` returning False means the filter rules the
    level out;
  - `try_oezman_sieve` returning True means the sieve failed.

Two name mismatches are treated as one function each:

- `try_trbovic_filter` (the solver's import) and `try_najman_trbovic_filter`
  are `TryNajmanTrbovicFilter`;
- `is_rank_of_twist_zero_minus` (the utils import) and
  `is_rank_of_twist_zero` are `IsRankOfTwistZero`.

## Model

| member | source | states |
|---|---|---|
| Types.Add | sage_code/quadratic_kenku_solver.py:72 | adding counts is `+Infinity` exactly when one side is `+Infinity`, and otherwise adds the finite counts |
| Arith.TwoRamified | sage_code/hyperelliptic_verifs.py:20-21 | 2 is a ramified prime of Q(sqrt(d)) exactly when d is not 1 mod 4 |
| Arith.OddPrimeRamified | sage_code/hyperelliptic_verifs.py:20-21 | an odd prime is ramified in Q(sqrt(d)) exactly when it divides d |
| Arith.SquarefreePart | sage_code/non_hyperelliptic_verifs.py:110-111 | the square-free part m of N is square-free, N = m * s^2 for some s >= 1, and m is N itself when N is square-free |
| Lists.Sorted | sage_code/quadratic_kenku_solver.py:334 | `sort()` yields a non-decreasing permutation of the list |
| Lists.SortedMembers | sage_code/quadratic_kenku_solver.py:332-334 | sorting keeps exactly the same members |
| Lists.SortedListOfSet | sage_code/utils.py:313-314 | `sorted(list(S))` is strictly increasing, has exactly the members of S, and is the unique such list |
| Lists.StrictlyIncreasingUnique | sage_code/utils.py:313-314 | two strictly increasing lists with the same members are equal |
| Lists.RemoveFirst | sage_code/quadratic_kenku_solver.py:239-242 | `remove(x)` fails exactly when x is absent, and otherwise removes exactly one copy, the first one |
| Lists.RemoveFirstNonDecreasing | sage_code/quadratic_kenku_solver.py:239-242 | removing 163 from a sorted bucket leaves it sorted |
| HyperellipticVerifs.TryNajmanTrbovicFilter | sage_code/hyperelliptic_verifs.py:18-28 | a level without a catalogue entry is a KeyError, and a catalogued level always gets a verdict |
| HyperellipticVerifs.NajmanTrbovicByDivisibility | sage_code/hyperelliptic_verifs.py:18-28 | the filter answers False exactly when the catalogue lists as unramified an odd prime dividing d, or 2 while d is not 1 mod 4; with no unramified primes listed it answers True |
| HyperellipticVerifs.RamifiedAt213 | sage_code/hyperelliptic_verifs.py:20-21 | for d = 213 the discriminant is 213, so 2 is not ramified, while 3 is |
| HyperellipticVerifs.OneModFourDiscriminant | sage_code/hyperelliptic_verifs.py:20-21 | for every d = 1 mod 4 the discriminant is d and 2 is unramified |
| NonHyperellipticVerifs.OezmanSieveOddPrime | sage_code/non_hyperelliptic_verifs.py:106-119 | for square-free N an odd prime dividing N passes the sieve without the class group; one not dividing N leaves the answer to the class group |
| NonHyperellipticVerifs.TryOezmanSieve | sage_code/non_hyperelliptic_verifs.py:123-134 | True for every N that is not square-free; for square-free N, False exactly when some ramified prime fails `oezman_sieve` |
| NonHyperellipticVerifs.IsRankOfTwistZero | sage_code/non_hyperelliptic_verifs.py:48-67 | the early-exit loop is true exactly when every component has a non-zero winding image and a non-zero twisted winding image |
| NonHyperellipticVerifs.PrimeCoprime | sage_code/non_hyperelliptic_verifs.py:31 | for a prime q, `gcd(q, p) == 1` exactly when q does not divide p |
| NonHyperellipticVerifs.FrobPolyDataFrom | sage_code/non_hyperelliptic_verifs.py:23-32 | the list is strictly increasing in q; non-uniform mode lists the primes 5 <= q < B coprime to p with exponent 1 if chi(q) = 1 and 2 otherwise; uniform mode gives exponent 2 for every q != p |
| NonHyperellipticVerifs.PointCounts | sage_code/non_hyperelliptic_verifs.py:34-39 | one point count per Frobenius entry, in the same order |
| NonHyperellipticVerifs.CollectPointCounts | sage_code/non_hyperelliptic_verifs.py:34-39 | the appending loop builds exactly that list |
| NonHyperellipticVerifs.PointCountsAppend | sage_code/non_hyperelliptic_verifs.py:36-39 | one more Frobenius entry appends exactly its count |
| NonHyperellipticVerifs.IsTorsionSame | sage_code/non_hyperelliptic_verifs.py:14-45 | true exactly when the rational torsion order equals the gcd of the point counts |
| NonHyperellipticVerifs.CheckMwgpSameMinus | sage_code/non_hyperelliptic_verifs.py:70-75 | true exactly when both the twist-rank test and the torsion test (B = 30) succeed |
| SageUtils.GenusOneListAscending | sage_code/utils.py:9 | GENUS_ONE_LIST is strictly increasing |
| SageUtils.SmallPrimesArePrimesBelow20 | sage_code/utils.py:302 | `prime_range(20)` holds exactly the primes below 20 |
| SageUtils.GenusOneNotHyperelliptic | sage_code/utils.py:9-32 | no genus-one level is listed as hyperelliptic |
| SageUtils.AtkinLehnerDivisorCoprime | sage_code/utils.py:130-135 | d is an Atkin-Lehner divisor of N exactly when d divides N and d and N/d share no factor >= 2 |
| SageUtils.IsMultipleOf | sage_code/utils.py:232-237 | true exactly when some element of the set divides x |
| SageUtils.RemoveMultiples | sage_code/utils.py:240-249 | the result is a subset, and x is kept exactly when no other element of the set divides it |
| SageUtils.MinimalCovers | sage_code/utils.py:240-249 | every element of the set is a multiple of a kept element |
| SageUtils.MinimalIdempotent | sage_code/utils.py:240-249 | removing multiples twice changes nothing |
| SageUtils.Without | sage_code/utils.py:293-295 | the filtered list has exactly the listed elements not excluded, and keeps increasing order |
| SageUtils.PositiveRankLevels | sage_code/utils.py:293-295 | the positive-rank list is exactly the GENUS_ONE_LIST entries not in the zero-rank input, in increasing order |
| SageUtils.RowCandidates | sage_code/utils.py:305-308 | for one b, the candidates are exactly the products b*p that are not multiples of an element of `output` |
| SageUtils.CandidatesFrom | sage_code/utils.py:300-308 | `S3_prime` is exactly the set of products b*p that are not multiples of an element of `output` |
| SageUtils.CollectRowCandidates | sage_code/utils.py:305-308 | the inner loop collects exactly those products for one b |
| SageUtils.CollectCandidates | sage_code/utils.py:300-308 | the nested loops collect exactly `S3_prime` |
| SageUtils.MinimallyFiniteFast | sage_code/utils.py:287-316 | the output is strictly increasing, holds every zero-rank level and every AMF2 level, and is exactly base plus minimal candidates |
| SageUtils.MinimallyFiniteExtras | sage_code/utils.py:300-310 | every output element outside zero-rank and AMF2 is b*p for a positive-rank b and prime p < 20, and is divisible neither by a base element nor by another such product |
| SageUtils.RankFilter | sage_code/utils.py:257-263 | the positive-rank (or zero-rank) list is exactly the genus-one levels with that rank answer, in list order |
| SageUtils.WithoutZeroRank | sage_code/utils.py:293-295 | the comprehension over the zero-rank list and the rank split give the same positive-rank list |
| SageUtils.RankSplit | sage_code/utils.py:257-263 | the positive-rank and zero-rank lists partition GENUS_ONE_LIST, each in list order |
| SageUtils.MinimallyFinite | sage_code/utils.py:252-284 | with the ranks as an oracle, the result is strictly increasing and is exactly base plus minimal candidates |
| SageUtils.MinimallyFiniteFor | sage_code/utils.py:319-325 | a d without rank data is a KeyError; otherwise the result is Algorithm 2.2 on its zero-rank list |
| SageUtils.InBucket | sage_code/utils.py:331-337 | a bucket list holds exactly the levels of that bucket, tested genus-one first, then hyperelliptic, in input order, and keeps a sorted input sorted |
| SageUtils.SplitBuckets | sage_code/quadratic_kenku_solver.py:339-349 | the appending loop builds exactly the three bucket lists |
| SageUtils.BucketsPartition | sage_code/quadratic_kenku_solver.py:339-349 | every level lands in exactly one bucket: the three lists together are a permutation of the input |
| SageUtils.GetEasyLargeVals | sage_code/utils.py:97-108 | exactly 163 together with the catalogued levels above 100 whose entry is complete |
| SageUtils.IsRankOfTwistZeroPlus | sage_code/utils.py:378-397 | the early-exit loop is true exactly when every component has a zero winding image and a non-zero twisted winding image |
| SageUtils.IsTorsionSamePlus | sage_code/utils.py:344-375 | true exactly when the gcd of the point counts is 1, that is, no k >= 2 divides all of them |
| SageUtils.CheckMwgpSamePlus | sage_code/utils.py:400-406 | true exactly when both the plus twist-rank test and the plus torsion test (B = 100) succeed |
| IsogenyGraphs.RowIndex | sage_code/isogeny_graphs.py:45 | `C.index(E)` is the first row whose curve has the given j-invariant |
| IsogenyGraphs.IsogenyDegrees | sage_code/isogeny_graphs.py:40-46 | no degrees when j is not in the class; otherwise exactly the entries of the first row for j |
| IsogenyGraphs.IsogenyClassViaSage | sage_code/isogeny_graphs.py:70-110 | the Sage answer when Sage succeeds; otherwise GP, tried once; nothing exactly when both fail |
| IsogenyGraphs.Successes | sage_code/isogeny_graphs.py:130-134 | the kept classes come from input j-invariants whose computation succeeded, at most one per input, and every successful j's class is kept |
| IsogenyGraphs.SuccessesInOrder | sage_code/isogeny_graphs.py:130-134 | the kept classes are those of the successful j, one each, in input order: the k-th is the class of js[idx[k]] for increasing idx listing every successful position |
| IsogenyGraphs.DesiredDegrees | sage_code/isogeny_graphs.py:140-152 | exactly the matrix entries that are proper multiples of z (non-CM) or outside the genus-zero and genus-one lists (CM) |
| IsogenyGraphs.AdmittingBounds | sage_code/isogeny_graphs.py:154-161 | an occurring degree is admitted by at least one and at most all the distinct j-invariants |
| IsogenyGraphs.UnrecordedSpec | sage_code/isogeny_graphs.py:123-163 | failures are exactly the j with no class, valued z (or 0); the degree keys are exactly the wanted occurring entries, counts between 1 and the number of j-invariants; non-CM keys are multiples of z above z |
| IsogenyGraphs.JInvsAdmittingDegree | sage_code/isogeny_graphs.py:156-160 | the loop collects exactly the j-invariants whose row contains k |
| IsogenyGraphs.ComputeClasses | sage_code/isogeny_graphs.py:127-137 | the first loop keeps the successful classes in order and records each failure with z, or 0 |
| IsogenyGraphs.CountDegrees | sage_code/isogeny_graphs.py:154-161 | each desired degree gets the number of distinct j-invariants admitting it, and nothing else is a key |
| IsogenyGraphs.UnrecordedIsogenies | sage_code/isogeny_graphs.py:123-163 | an AssertionError exactly when non-CM mode has no z; otherwise the degree counts and failures above |
| KenkuSolver.SumInto | sage_code/quadratic_kenku_solver.py:70-73 | the merged dictionary has exactly the keys of either side; a key of element holds `accumulator.get(key, 0) + value`, any other key keeps its old value |
| KenkuSolver.CountDict.Reduce | sage_code/quadratic_kenku_solver.py:70-73 | `reducer` adds each value of `element` into the accumulator in place (absent keys start at 0) and leaves other keys unchanged |
| KenkuSolver.TotalInf | sage_code/quadratic_kenku_solver.py:414 | a key's summed count is `+Infinity` exactly when some dictionary gives it `+Infinity` |
| KenkuSolver.TotalZero | sage_code/quadratic_kenku_solver.py:414 | a key's summed count is 0 exactly when every dictionary gives it 0 |
| KenkuSolver.FoldSumIsKeywiseSum | sage_code/quadratic_kenku_solver.py:414 | `reduce(reducer, ...)` has exactly the keys of the dictionaries, each with its keywise sum |
| KenkuSolver.ReduceAll | sage_code/quadratic_kenku_solver.py:414 | the fold through the in-place `reducer` computes that keywise sum |
| KenkuSolver.DropZeros | sage_code/quadratic_kenku_solver.py:415 | exactly the keys with non-zero value survive, with their values |
| KenkuSolver.Expand | sage_code/quadratic_kenku_solver.py:147-154 | a pair with b = 0 gives one rational j-invariant; otherwise a + b*g followed by its conjugate |
| KenkuSolver.UniqueJInvCount | sage_code/quadratic_kenku_solver.py:136-155 | empty input gives (0, []); the count is the length of the unpacked list |
| KenkuSolver.UnpackAppend | sage_code/quadratic_kenku_solver.py:146-154 | unpacking works pair by pair: it distributes over concatenation |
| KenkuSolver.UnpackLength | sage_code/quadratic_kenku_solver.py:146-155 | the count is #(b = 0) + 2*#(b != 0) |
| KenkuSolver.UnpackLayout | sage_code/quadratic_kenku_solver.py:146-154 | each pair's j-invariants sit together at its offset, conjugates adjacent, in input order |
| KenkuSolver.UnpackConjugateClosed | sage_code/quadratic_kenku_solver.py:146-154 | the unpacked list is closed under Galois conjugation |
| KenkuSolver.HyperStep | sage_code/quadratic_kenku_solver.py:164-230 | an uncatalogued z is a KeyError; away from 37 the level fails exactly when filter and sieve both return True; 37 succeeds only via (twist rank 0 and 4 preimages) or (positive rank, plus check, sieve False); success counts its j-invariants |
| KenkuSolver.NonHyperStep | sage_code/quadratic_kenku_solver.py:248-311 | a catalogued z fails exactly when incomplete, sieve True and minus check false; an uncatalogued z gets 0 when the minus check passes, or the plus check passes and the sieve is False, and otherwise fails |
| KenkuSolver.HyperellipticLevel | sage_code/quadratic_kenku_solver.py:164-230 | the branch code computes exactly that step |
| KenkuSolver.NonHyperellipticLevel | sage_code/quadratic_kenku_solver.py:249-311 | the branch code computes exactly that step |
| KenkuSolver.Record | sage_code/quadratic_kenku_solver.py:183-184 | after a round, `output_dict[z]` is the level's own count |
| KenkuSolver.RecordLevel | sage_code/quadratic_kenku_solver.py:183-232 | merges the unrecorded isogenies (newer wins), keeps earlier failures, then sets `output_dict[z]` |
| KenkuSolver.ProcessLevels | sage_code/quadratic_kenku_solver.py:163-234 | the loop computes the specified run over the levels |
| KenkuSolver.ProcessHyperelliptic | sage_code/quadratic_kenku_solver.py:158-234 | `process_hyperelliptic` is the run of the hyperelliptic step over its levels |
| KenkuSolver.ProcessNonHyperSpec | sage_code/quadratic_kenku_solver.py:239-242 | `remove(163)` fails exactly when 163 is not among the levels |
| KenkuSolver.ProcessNonHyperelliptic | sage_code/quadratic_kenku_solver.py:237-315 | `process_non_hyperelliptic` is the run of the non-hyperelliptic step over a copy without the first 163 |
| KenkuSolver.RunErrSticky | sage_code/quadratic_kenku_solver.py:168 | once a level raises, the whole loop raises that error |
| KenkuSolver.RunFailsAtFirst | sage_code/quadratic_kenku_solver.py:163-234 | the loop succeeds exactly when every level does, and otherwise raises the error of the first failing level |
| KenkuSolver.RunRecordsEachLevel | sage_code/quadratic_kenku_solver.py:232 | with the levels in non-decreasing order, every processed z ends with `output_dict[z]` equal to its own count |
| KenkuSolver.ProcessRecordsEachLevel | sage_code/quadratic_kenku_solver.py:232 | the same, stated for the hyperelliptic and non-hyperelliptic loops |
| KenkuSolver.StagesRecordEachLevel | sage_code/quadratic_kenku_solver.py:334-349 | for a sorted level list, every hyperelliptic level and every non-hyperelliptic level other than 163 ends in its stage's dictionary with its own round's count |
| KenkuSolver.SolveRecordsEachLevel | sage_code/quadratic_kenku_solver.py:332-349 | for a successful run, the same holds for the solver's own sorted list, so no precondition on order remains |
| KenkuSolver.RunFailures | sage_code/quadratic_kenku_solver.py:184 | the failures are exactly the j-invariants that failed in some round, each valued by the level of the first round where it failed |
| KenkuSolver.DictKeys | sage_code/quadratic_kenku_solver.py:361 | the keys of `dict(pairs)`, each once |
| KenkuSolver.DictOfLastWins | sage_code/quadratic_kenku_solver.py:361 | in `dict(pairs)`, the last pair with a key gives its value |
| KenkuSolver.Lengths | sage_code/quadratic_kenku_solver.py:366 | `elliptic_count_dict` has exactly the keys of the elliptic dictionary, each with the number of its j-invariants |
| KenkuSolver.ProcessElliptic | sage_code/quadratic_kenku_solver.py:355-379 | the loops of the genus-one stage compute `EllipticCounts`, whose meaning `EllipticStage` states |
| KenkuSolver.MergeRoundsStep | sage_code/quadratic_kenku_solver.py:368-376 | one more round merges its counts over the old ones and the old failures over its own |
| KenkuSolver.MergeFailures | sage_code/quadratic_kenku_solver.py:376 | a j is a merged failure exactly when some round records it, with the entry of the first such round |
| KenkuSolver.MergeCounts | sage_code/quadratic_kenku_solver.py:372-375 | a degree is a merged count exactly when some round records it, with the entry of the last such round |
| KenkuSolver.RoundMeaning | sage_code/quadratic_kenku_solver.py:369-371 | the round of level k records as failures exactly its j with a failed class computation, each with k, and as counts exactly the degrees it reveals |
| KenkuSolver.FailuresOver | sage_code/quadratic_kenku_solver.py:368-376 | the stage's failures are the j whose class computation failed in some round, each recorded with the first such level in key order |
| KenkuSolver.CountsOver | sage_code/quadratic_kenku_solver.py:368-376 | the stage's unrecorded counts are the revealed degrees, each with the count of the last round revealing it |
| KenkuSolver.StageOver | sage_code/quadratic_kenku_solver.py:366-379 | the stage's promise for any levels: failures as above; counts hold every level and every revealed degree; an unrevealed level keeps `len(dict[k])`, a revealed degree takes its last round's count |
| KenkuSolver.EllipticStage | sage_code/quadratic_kenku_solver.py:355-379 | the same promise for the Magma answer, with the keys in dictionary order |
| KenkuSolver.InfiniteDict | sage_code/quadratic_kenku_solver.py:337 | `+Infinity` exactly on the genus-one levels missing from the list |
| KenkuSolver.Assemble | sage_code/quadratic_kenku_solver.py:386-415 | no answer key maps to 0; the failures are the union of the stages' failures, an earlier stage's entry winning: genus-one, then hyperelliptic, then non-hyperelliptic, then CM |
| KenkuSolver.Solve | sage_code/quadratic_kenku_solver.py:325-334 | no large-prime data for d is a ValueError before anything else; no rank data is a KeyError |
| KenkuSolver.RunStages | sage_code/quadratic_kenku_solver.py:337-415 | the stages after the level list compute the specified result |
| KenkuSolver.QuadraticKenkuSolver | sage_code/quadratic_kenku_solver.py:318-416 | the solver computes exactly the specified result |
| KenkuSolver.FinalMerge | sage_code/quadratic_kenku_solver.py:407-415 | the answer's keys are those of some dictionary with a non-zero sum, each valued by its keywise sum |
| KenkuSolver.AnswerInfinite | sage_code/quadratic_kenku_solver.py:337 | `+Infinity` stands in the answer exactly under the genus-one levels missing from the level list |
| KenkuSolver.LpipOutsideGenusOne | sage_code/large_possible_isogeny_primes.py:8 | no large possible isogeny prime is a genus-one level |
| KenkuSolver.GenusOneNotProduct | sage_code/utils.py:304-306 | no product b*p of a genus-one level and a prime below 20 is a genus-one level |
| KenkuSolver.MinimallyFiniteGenusOne | sage_code/utils.py:297-314 | a genus-one level is in Algorithm 2.2's list exactly when it has rank 0 |
| KenkuSolver.GenusOneInLevels | sage_code/quadratic_kenku_solver.py:332-334 | a genus-one level is among the solver's levels exactly when it has rank 0 |
| KenkuSolver.SolveInfinity | sage_code/quadratic_kenku_solver.py:318-416 | a successful run answers `+Infinity` exactly for the genus-one levels of positive rank over Q(sqrt(d)) |
| KenkuSolver.RunStepErrors | sage_code/quadratic_kenku_solver.py:163-311 | a failing loop reports a missing catalogue entry or an unimplemented case at one of its own levels |
| KenkuSolver.LevelsHold163 | sage_code/quadratic_kenku_solver.py:239-242 | 163 is always among the non-hyperelliptic levels, so `remove(163)` never fails in the solver |
| KenkuSolver.SolveErrors | sage_code/quadratic_kenku_solver.py:318-416 | the solver's only errors are the missing large-prime data, the missing rank data, and a missing catalogue entry or unimplemented case at one of its levels; never the `remove` or assertion errors |
| LegacyUtils.SelectedBelow | utils.py:145-156 | the scan up to n is strictly increasing and holds exactly the passing levels 11 <= N < n |
| LegacyUtils.LegacyList | utils.py:142-158 | the result lies in [11, 800), is strictly increasing, always holds 37, 43, 67, 163; any other member is zero-rank or composite of genus > 1 with all proper divisors genus-zero or positive-rank; a prime outside those four is there only with rank 0 |
| LegacyUtils.DivisorsAdmissible | utils.py:153-155 | true exactly when every proper divisor of N is a genus-zero or positive-rank level |
| LegacyUtils.LegacyMinimallyFinite | utils.py:129-158 | the scan returns exactly that list, for the positive-rank and zero-rank lists that partition GENUS_ONE_LIST in list order (the split of `SageUtils.RankSplit`) |

## Left out

- Computer algebra is not modelled. Its answers are oracle inputs: ranks, modular symbols and period maps, Frobenius polynomials, class groups, the genus of X_0(N), `cm_j_invariants`, `isogeny_class`/`ellisomat`, and Magma's `EllipticCount`/`ComputePreimages`.
- The genus formulas are not modelled: `split_cartan_genus`, `nonsplit_cartan_genus`, `c_i`, `c_i_at_2`, `fixed_point_number` and `genus_of_quotient`. They need Sage class numbers and Sage's preparsing of `^` and `1/24`.
- The signal-based `timeout` is concurrency. A timed-out class computation is modelled as the oracle returning nothing.
- Loading files and JSON, `eval` of strings, and the Magma string formatting are I/O. The catalogue, rank data and (a, b) pairs arrive parsed.
- Printing, logging, `print_master_table`, the `__main__` drivers and the top-level script statements are output only.
- `search_convenient_d` and `search_convenient_d_fast` are left out: they are a search loop that writes a file and prints.
- The `process=True` branch of `minimally_finite_fast` only prints its buckets. The bucket split itself is modelled (`SplitBuckets`).
- Arithmetic in Q(sqrt(d)) is not modelled. A j-invariant is the pair (a, b) for a + b*sqrt(d), and only equality and conjugation are used.
- utils.py:27-32 (`is_atkin_lehner_divisor`) is the same function as sage_code/utils.py:130-135. `SageUtils.IsAtkinLehnerDivisor` models both.
- utils.py:161-224 (`is_torsion_same`, `is_rank_of_twist_zero`, `check_mwgp_same`) are the same tests as the plus checks in `SageUtils` (`IsTorsionSamePlus`, `IsRankOfTwistZeroPlus`, `CheckMwgpSamePlus`). They are not modelled a second time.
- SageUtils.GetEasyLargeVals: returns a set. The order of `list(output)` follows Python's set iteration and is not modelled.
- IsogenyGraphs.IsogenyDegrees: finds E's row by j-invariant. The source compares curves, which within one isogeny class over a field amounts to the same lookup.
- KenkuSolver.ProcessNonHyperelliptic: works on a value, so "the caller's list is unchanged" holds trivially rather than through aliasing.
- KenkuSolver.Solve: `d !in Lpip ==> Err(NoLargePrimeData(d))` is one-way in its own contract. The converse is in `SolveErrors`.
- KenkuSolver.RunRecordsEachLevel: assumes the levels come in non-decreasing order. With unsorted levels, a later level's unrecorded isogenies could overwrite an earlier `output_dict[z]`. The solver's lists are sorted, and `SolveRecordsEachLevel` discharges the assumption for them.
- SageUtils.IsAtkinLehnerDivisor: requires d and N not both 0, so the source's ZeroDivisionError on `is_atkin_lehner_divisor(0, 0)` is not modelled. Its only callers are the genus formulas, which are left out and pass N >= 1.
- The payload of `NotImplemented` is the level at which the solver gave up. The source's message text is not modelled.
- The genus-one stage takes the keys of the elliptic dictionary in the order of Magma's pairs, as a Python dict keeps them.
