/**
 * sage_code/utils.py: the constant level lists, the Atkin-Lehner divisor test,
 * the divisibility reduction, Algorithm 2.2 (the "minimally finite" candidate
 * levels for Q(sqrt(d))), the three-way split of those levels, the easy
 * large values of the catalogue, and the "plus part" Mordell-Weil checks.
 */
module SageUtils {
  import opened Arith
  import opened Types
  import opened Lists
  import opened NonHyperellipticVerifs

  const GenusZeroList: seq<Level> := [1, 2, 3, 4, 5, 6, 7, 8, 9, 10, 12, 13, 16, 18, 25]
  const GenusOneList: seq<Level> := [11, 14, 15, 17, 19, 20, 21, 24, 27, 32, 36, 49]
  const Amf2: set<Level> := {26, 35, 37, 39, 43, 50, 65, 67, 91, 125, 163, 169}
  const HyperellipticValues: set<Level> :=
    {22, 23, 26, 28, 29, 30, 31, 33, 35, 37, 39, 40, 41, 46, 47, 48, 50, 59, 71}
  /** `prime_range(20)`. */
  const SmallPrimes: seq<Level> := [2, 3, 5, 7, 11, 13, 17, 19]

  lemma GenusOneListAscending()
    ensures StrictlyIncreasing(GenusOneList)
  {
    assert AdjacentIncreasing(GenusOneList);
    AdjacentIncreasingSound(GenusOneList);
  }

  lemma PrimeByTrialDivision(n: int)
    requires n >= 2 && NoDivisorFrom(n, 2)
    ensures IsPrime(n)
  {
    NoDivisorFromSound(n, 2);
  }

  lemma SeventeenAndNineteenArePrime()
    ensures IsPrime(17) && IsPrime(19)
  {
    assert NoDivisorFrom(17, 12);
    assert NoDivisorFrom(17, 6);
    assert NoDivisorFrom(17, 2);
    PrimeByTrialDivision(17);
    assert NoDivisorFrom(19, 14);
    assert NoDivisorFrom(19, 8);
    assert NoDivisorFrom(19, 2);
    PrimeByTrialDivision(19);
  }

  /** The small primes are exactly the primes below 20. */
  lemma SmallPrimesArePrimesBelow20()
    ensures forall p :: p in SmallPrimes <==> 2 <= p < 20 && IsPrime(p)
  {
    assert NoDivisorFrom(2, 2) && NoDivisorFrom(3, 2) && NoDivisorFrom(5, 2) && NoDivisorFrom(7, 2);
    PrimeByTrialDivision(2);
    PrimeByTrialDivision(3);
    PrimeByTrialDivision(5);
    PrimeByTrialDivision(7);
    assert NoDivisorFrom(11, 2) && NoDivisorFrom(13, 2);
    PrimeByTrialDivision(11);
    PrimeByTrialDivision(13);
    SeventeenAndNineteenArePrime();
    forall p | 2 <= p < 20 && IsPrime(p)
      ensures p in SmallPrimes
    {
      if p % 2 == 0 {
        assert Divides(2, p);
      } else if p % 3 == 0 {
        assert Divides(3, p);
      }
    }
  }

  /** No level is both genus one and hyperelliptic, so the order in which the
      bucket split tests the two lists does not matter. */
  lemma GenusOneNotHyperelliptic()
    ensures forall N :: N in GenusOneList ==> N !in HyperellipticValues
  {
  }

  // ---------------------------------------------------------------------
  // Atkin-Lehner divisors

  /** `is_atkin_lehner_divisor(d, N)`. Sage raises ZeroDivisionError on
      d = N = 0 (0 divides 0, then 0 / 0), which the precondition excludes. */
  function IsAtkinLehnerDivisor(d: int, N: int): bool
    requires d != 0 || N != 0
  {
    if Divides(d, N) then Gcd(Abs(d), Abs(N / d)) == 1 else false
  }

  /** d is an Atkin-Lehner divisor of N exactly when d divides N and no
      integer k >= 2 divides both d and N / d. */
  lemma AtkinLehnerDivisorCoprime(d: int, N: int)
    requires d != 0 || N != 0
    ensures IsAtkinLehnerDivisor(d, N) <==>
      Divides(d, N) && forall k :: k >= 2 ==> !(Divides(k, d) && Divides(k, N / d))
  {
    if Divides(d, N) {
      assert d != 0;
      var c := N / d;
      GcdIsOne(Abs(d), Abs(c));
      forall k | k >= 2
        ensures (Divides(k, Abs(d)) && Divides(k, Abs(c))) <==> (Divides(k, d) && Divides(k, c))
      {
        DividesAbs(k, d);
        DividesAbs(k, c);
      }
    }
  }

  // ---------------------------------------------------------------------
  // Divisibility reduction

  /** x is a multiple of some element of S (x itself counts when x is in S). */
  ghost predicate MultipleOfSome(x: int, S: set<Level>) {
    exists y :: y in S && Divides(y, x)
  }

  /** `is_multiple_of(x, a_set)`: early-return loop over the set. */
  method IsMultipleOf(x: int, S: set<Level>) returns (r: bool)
    ensures r <==> MultipleOfSome(x, S)
  {
    var rest := S;
    while rest != {}
      invariant rest <= S
      invariant forall y :: y in S && y !in rest ==> !Divides(y, x)
      decreases |rest|
    {
      var y := Pick(rest);
      if Divides(y, x) {
        return true;
      }
      rest := rest - {y};
    }
    return false;
  }

  /** The elements of S divisible by no other element of S. */
  ghost function Minimal(S: set<Level>): set<Level> {
    set x | x in S && !MultipleOfSome(x, S - {x})
  }

  /** `remove_multiples(a_set)`: keeps x exactly when no other element of the
      set divides it. */
  method RemoveMultiples(S: set<Level>) returns (r: set<Level>)
    ensures r == Minimal(S)
    ensures r <= S
    ensures forall x :: x in r <==> x in S && forall y :: y in S && y != x ==> !Divides(y, x)
  {
    r := {};
    var rest := S;
    while rest != {}
      invariant rest <= S
      invariant forall x :: x in r <==> x in S && x !in rest && !MultipleOfSome(x, S - {x})
      decreases |rest|
    {
      var x := Pick(rest);
      var isMultiple := IsMultipleOf(x, S - {x});
      if !isMultiple {
        r := r + {x};
      }
      rest := rest - {x};
    }
    assert r == Minimal(S);
  }

  /** Nothing is lost: every element of S is a multiple of a kept element. */
  lemma {:induction false} MinimalCovers(S: set<Level>, x: Level)
    requires x in S
    ensures exists m :: m in Minimal(S) && Divides(m, x)
    decreases x
  {
    if x in Minimal(S) {
      DividesMul(x, 1);
      assert Divides(x, x);
    } else {
      var y :| y in S - {x} && Divides(y, x);
      DivisorBound(y, x);
      MinimalCovers(S, y);
      var m :| m in Minimal(S) && Divides(m, y);
      DividesTrans(m, y, x);
    }
  }

  /** `remove_multiples` is idempotent. */
  lemma MinimalIdempotent(S: set<Level>)
    ensures Minimal(Minimal(S)) == Minimal(S)
  {
    var M := Minimal(S);
    forall x | x in M
      ensures !MultipleOfSome(x, M - {x})
    {
      assert !MultipleOfSome(x, S - {x});
      assert M - {x} <= S - {x};
    }
  }

  // ---------------------------------------------------------------------
  // Algorithm 2.2

  /** The levels of s not in `excluded`, in the order of s. */
  function Without(s: seq<Level>, excluded: seq<Level>): (r: seq<Level>)
    ensures forall x :: x in r <==> x in s && x !in excluded
    ensures StrictlyIncreasing(s) ==> StrictlyIncreasing(r)
  {
    if s == [] then []
    else
      var init := s[..|s| - 1];
      var last := s[|s| - 1];
      assert forall k :: 0 <= k < |init| ==> init[k] == s[k];
      assert forall x :: x in s <==> x in init || x == last;
      var rest := Without(init, excluded);
      SnocIncreasing(s, rest);
      if last in excluded then rest else rest + [last]
  }

  /** The positive-rank genus-one levels: GENUS_ONE_LIST without the zero-rank
      ones, in GENUS_ONE_LIST order. */
  function PositiveRankLevels(zeroRank: seq<Level>): (r: seq<Level>)
    ensures StrictlyIncreasing(r)
    ensures forall N :: N in r <==> N in GenusOneList && N !in zeroRank
  {
    GenusOneListAscending();
    Without(GenusOneList, zeroRank)
  }

  /** set(zero-rank levels) together with AMF2. */
  function Base(zeroRank: seq<Level>): set<Level> {
    (set x | x in zeroRank) + Amf2
  }

  function Product(b: Level, p: Level): Level {
    MulBound(b, p);
    b * p
  }

  /** c is b * p for some b in bs and p in ps. */
  ghost predicate IsProductOf(c: int, bs: seq<Level>, ps: seq<Level>) {
    exists b, p :: b in bs && p in ps && c == Product(b, p)
  }

  /** The candidates b * p for one b, over the primes in ps, that are not
      multiples of an element of `base`. */
  ghost function RowCandidates(b: Level, ps: seq<Level>, base: set<Level>): (r: set<Level>)
    ensures forall c :: c in r <==> IsProductOf(c, [b], ps) && !MultipleOfSome(c, base)
  {
    if ps == [] then {}
    else
      var init := ps[..|ps| - 1];
      var c := Product(b, ps[|ps| - 1]);
      assert forall p :: p in ps <==> p in init || p == ps[|ps| - 1];
      RowCandidates(b, init, base) + (if MultipleOfSome(c, base) then {} else {c})
  }

  /** The set S3' filled by the nested loops, over the levels in bs. */
  ghost function CandidatesFrom(bs: seq<Level>, ps: seq<Level>, base: set<Level>): (r: set<Level>)
    ensures forall c :: c in r <==> IsProductOf(c, bs, ps) && !MultipleOfSome(c, base)
  {
    if bs == [] then {}
    else
      var init := bs[..|bs| - 1];
      var last := bs[|bs| - 1];
      assert forall b :: b in bs <==> b in init || b == last;
      var rest := CandidatesFrom(init, ps, base);
      var row := RowCandidates(last, ps, base);
      forall c
        ensures IsProductOf(c, bs, ps) <==> IsProductOf(c, init, ps) || IsProductOf(c, [last], ps)
      {
        if IsProductOf(c, bs, ps) {
          var b, p :| b in bs && p in ps && c == Product(b, p);
          if b == last {
            assert IsProductOf(c, [last], ps);
          } else {
            assert IsProductOf(c, init, ps);
          }
        }
      }
      rest + row
  }

  ghost function Candidates(zeroRank: seq<Level>): set<Level> {
    CandidatesFrom(PositiveRankLevels(zeroRank), SmallPrimes, Base(zeroRank))
  }

  /** The list Algorithm 2.2 returns: base set and minimal candidates, sorted. */
  ghost function MinimallyFiniteList(zeroRank: seq<Level>): seq<Level> {
    SortedSeqOf(Base(zeroRank) + Minimal(Candidates(zeroRank)))
  }

  /** The inner loop of Algorithm 2.2: the products b * p, p < 20, that are
      not multiples of an element of `base`. */
  method CollectRowCandidates(b: Level, base: set<Level>) returns (row: set<Level>)
    ensures row == RowCandidates(b, SmallPrimes, base)
  {
    row := {};
    for j := 0 to |SmallPrimes|
      invariant row == RowCandidates(b, SmallPrimes[..j], base)
    {
      var candidate := Product(b, SmallPrimes[j]);
      var isMultiple := IsMultipleOf(candidate, base);
      if !isMultiple {
        row := row + {candidate};
      }
      assert SmallPrimes[..j + 1][..j] == SmallPrimes[..j];
    }
    assert SmallPrimes[..|SmallPrimes|] == SmallPrimes;
  }

  /** The outer loop of Algorithm 2.2, filling S3'. */
  method CollectCandidates(positive: seq<Level>, base: set<Level>) returns (s3Prime: set<Level>)
    ensures s3Prime == CandidatesFrom(positive, SmallPrimes, base)
  {
    s3Prime := {};
    for i := 0 to |positive|
      invariant s3Prime == CandidatesFrom(positive[..i], SmallPrimes, base)
    {
      var row := CollectRowCandidates(positive[i], base);
      s3Prime := s3Prime + row;
      assert positive[..i + 1][..i] == positive[..i];
    }
    assert positive[..|positive|] == positive;
  }

  /** `_minimally_finite_fast(genus_one_zero_rank_list)`: the zero-rank
      levels, AMF2, and the minimal products b * p of a positive-rank level b
      and a prime p < 20 that are not multiples of those, sorted. */
  method MinimallyFiniteFast(zeroRank: seq<Level>) returns (mf: seq<Level>)
    ensures mf == MinimallyFiniteList(zeroRank)
    ensures StrictlyIncreasing(mf)
    ensures forall x :: x in mf <==> x in Base(zeroRank) || x in Minimal(Candidates(zeroRank))
    ensures forall x :: x in zeroRank ==> x in mf
    ensures forall x :: x in Amf2 ==> x in mf
  {
    var positive := PositiveRankLevels(zeroRank);
    var output := Base(zeroRank);
    var s3Prime := CollectCandidates(positive, output);
    var s3 := RemoveMultiples(s3Prime);
    output := output + s3;
    mf := SortedListOfSet(output);
  }

  /** What an element added by Algorithm 2.2 beyond the zero-rank levels and
      AMF2 looks like: a product b * p of a positive-rank genus-one level and
      a prime below 20, divisible by no element of the base set and by no
      other such product. */
  lemma MinimallyFiniteExtras(zeroRank: seq<Level>, x: Level)
    requires x in Minimal(Candidates(zeroRank))
    ensures exists b, p :: b in PositiveRankLevels(zeroRank) && p in SmallPrimes && x == Product(b, p)
    ensures forall y :: y in Base(zeroRank) ==> !Divides(y, x)
    ensures forall b, p :: b in PositiveRankLevels(zeroRank) && p in SmallPrimes && Product(b, p) != x ==>
      !Divides(Product(b, p), x)
  {
    var positive := PositiveRankLevels(zeroRank);
    var base := Base(zeroRank);
    var S := Candidates(zeroRank);
    assert x in S;
    forall b, p | b in positive && p in SmallPrimes && Product(b, p) != x
      ensures !Divides(Product(b, p), x)
    {
      var c := Product(b, p);
      assert IsProductOf(c, positive, SmallPrimes);
      if c in S {
        assert c in S - {x};
      } else if Divides(c, x) {
        var y :| y in base && Divides(y, c);
        DividesTrans(y, c, x);
      }
    }
  }

  // ---------------------------------------------------------------------
  // Ranks of the genus-one levels

  /** The genus-one levels of s whose twist has positive rank (want = true)
      or rank zero (want = false), in the order of s. */
  function RankFilter(s: seq<Level>, positiveRank: Level -> bool, want: bool): (r: seq<Level>)
    ensures forall x :: x in r <==> x in s && positiveRank(x) == want
    ensures StrictlyIncreasing(s) ==> StrictlyIncreasing(r)
  {
    if s == [] then []
    else
      var init := s[..|s| - 1];
      var last := s[|s| - 1];
      assert forall k :: 0 <= k < |init| ==> init[k] == s[k];
      assert forall x :: x in s <==> x in init || x == last;
      var rest := RankFilter(init, positiveRank, want);
      SnocIncreasing(s, rest);
      if positiveRank(last) == want then rest + [last] else rest
  }

  /** Filtering one more level appends it when its rank is the one wanted. */
  lemma RankFilterSnoc(s: seq<Level>, x: Level, positiveRank: Level -> bool, want: bool)
    ensures RankFilter(s + [x], positiveRank, want) ==
      if positiveRank(x) == want then RankFilter(s, positiveRank, want) + [x] else RankFilter(s, positiveRank, want)
  {
    assert (s + [x])[..|s|] == s;
  }

  lemma {:induction false} WithoutZeroRank(s: seq<Level>, positiveRank: Level -> bool, zero: seq<Level>)
    requires forall x :: x in s ==> (x in zero <==> !positiveRank(x))
    ensures Without(s, zero) == RankFilter(s, positiveRank, true)
  {
    if s != [] {
      var init := s[..|s| - 1];
      assert forall x :: x in init ==> x in s;
      WithoutZeroRank(init, positiveRank, zero);
    }
  }

  /** The rank loop of `minimally_finite`: each genus-one level goes to the
      positive-rank list or the zero-rank list, both in GENUS_ONE_LIST order;
      the positive-rank list is the one `_minimally_finite_fast` derives from
      the zero-rank list. */
  method RankSplit(positiveRank: Level -> bool) returns (positive: seq<Level>, zero: seq<Level>)
    ensures positive == RankFilter(GenusOneList, positiveRank, true)
    ensures zero == RankFilter(GenusOneList, positiveRank, false)
    ensures forall N :: N in GenusOneList <==> N in positive || N in zero
    ensures forall N :: !(N in positive && N in zero)
    ensures positive == PositiveRankLevels(zero)
  {
    positive := [];
    zero := [];
    for i := 0 to |GenusOneList|
      invariant positive == RankFilter(GenusOneList[..i], positiveRank, true)
      invariant zero == RankFilter(GenusOneList[..i], positiveRank, false)
    {
      var N := GenusOneList[i];
      assert GenusOneList[..i + 1] == GenusOneList[..i] + [N];
      RankFilterSnoc(GenusOneList[..i], N, positiveRank, true);
      RankFilterSnoc(GenusOneList[..i], N, positiveRank, false);
      if positiveRank(N) {
        positive := positive + [N];
      } else {
        zero := zero + [N];
      }
    }
    assert GenusOneList[..|GenusOneList|] == GenusOneList;
    WithoutZeroRank(GenusOneList, positiveRank, zero);
  }

  /** `minimally_finite(d)`, with the twist ranks as the oracle
      `positiveRank`: the rank loop, then the same construction as
      `_minimally_finite_fast`. */
  method MinimallyFinite(positiveRank: Level -> bool) returns (mf: seq<Level>)
    ensures StrictlyIncreasing(mf)
    ensures var zero := RankFilter(GenusOneList, positiveRank, false);
      forall x :: x in mf <==> x in Base(zero) || x in Minimal(Candidates(zero))
  {
    var positive, zero := RankSplit(positiveRank);
    mf := MinimallyFiniteFast(zero);
  }

  /** `minimally_finite_fast(d)` without the printing branch: the zero-rank
      list comes from the rank data, and a d without rank data is the
      KeyError of that lookup. */
  method MinimallyFiniteFor(d: int, rankData: map<int, seq<Level>>) returns (r: Result<seq<Level>>)
    ensures d !in rankData <==> r == Err(KeyError(d))
    ensures d in rankData <==> r.Ok?
    ensures r.Ok? ==> r.value == MinimallyFiniteList(rankData[d])
    ensures r.Ok? ==> StrictlyIncreasing(r.value)
    ensures r.Ok? ==> forall x :: x in r.value <==> x in Base(rankData[d]) || x in Minimal(Candidates(rankData[d]))
  {
    if d !in rankData {
      return Err(KeyError(d));
    }
    var mf := MinimallyFiniteFast(rankData[d]);
    return Ok(mf);
  }

  // ---------------------------------------------------------------------
  // Three-way split

  datatype Bucket = Elliptic | Hyperelliptic | NonHyperelliptic

  /** Genus-one levels first, then the hyperelliptic ones, then the rest. */
  function BucketOf(N: Level): Bucket {
    if N in GenusOneList then Elliptic
    else if N in HyperellipticValues then Hyperelliptic
    else NonHyperelliptic
  }

  /** The levels of s in bucket k, in the order of s. */
  function InBucket(s: seq<Level>, k: Bucket): (r: seq<Level>)
    ensures forall x :: x in r <==> x in s && BucketOf(x) == k
    ensures StrictlyIncreasing(s) ==> StrictlyIncreasing(r)
    ensures NonDecreasing(s) ==> NonDecreasing(r)
  {
    if s == [] then []
    else
      var init := s[..|s| - 1];
      var last := s[|s| - 1];
      assert forall k :: 0 <= k < |init| ==> init[k] == s[k];
      assert forall x :: x in s <==> x in init || x == last;
      var rest := InBucket(init, k);
      SnocIncreasing(s, rest);
      SnocNonDecreasing(s, rest);
      if BucketOf(last) == k then rest + [last] else rest
  }

  /** Bucketing one more level appends it to its own bucket. */
  lemma InBucketSnoc(s: seq<Level>, x: Level, k: Bucket)
    ensures InBucket(s + [x], k) == if BucketOf(x) == k then InBucket(s, k) + [x] else InBucket(s, k)
  {
    assert (s + [x])[..|s|] == s;
  }

  /** The bucket loop of `minimally_finite_fast` (and of the solver). */
  method SplitBuckets(levels: seq<Level>) returns (elliptic: seq<Level>, hyperelliptic: seq<Level>, other: seq<Level>)
    ensures elliptic == InBucket(levels, Elliptic)
    ensures hyperelliptic == InBucket(levels, Hyperelliptic)
    ensures other == InBucket(levels, NonHyperelliptic)
  {
    elliptic, hyperelliptic, other := [], [], [];
    for i := 0 to |levels|
      invariant elliptic == InBucket(levels[..i], Elliptic)
      invariant hyperelliptic == InBucket(levels[..i], Hyperelliptic)
      invariant other == InBucket(levels[..i], NonHyperelliptic)
    {
      var N := levels[i];
      assert levels[..i + 1] == levels[..i] + [N];
      InBucketSnoc(levels[..i], N, Elliptic);
      InBucketSnoc(levels[..i], N, Hyperelliptic);
      InBucketSnoc(levels[..i], N, NonHyperelliptic);
      if N in GenusOneList {
        assert BucketOf(N) == Elliptic;
        elliptic := elliptic + [N];
      } else if N in HyperellipticValues {
        assert BucketOf(N) == Hyperelliptic;
        hyperelliptic := hyperelliptic + [N];
      } else {
        assert BucketOf(N) == NonHyperelliptic;
        other := other + [N];
      }
    }
    assert levels[..|levels|] == levels;
  }

  /** Every level lands in exactly one bucket, as often as it occurs. */
  lemma {:induction false} BucketsPartition(s: seq<Level>)
    ensures multiset(InBucket(s, Elliptic)) + multiset(InBucket(s, Hyperelliptic)) +
            multiset(InBucket(s, NonHyperelliptic)) == multiset(s)
  {
    if s != [] {
      var init := s[..|s| - 1];
      var x := s[|s| - 1];
      BucketsPartition(init);
      assert s == init + [x];
      InBucketSnoc(init, x, Elliptic);
      InBucketSnoc(init, x, Hyperelliptic);
      InBucketSnoc(init, x, NonHyperelliptic);
      assert multiset(s) == multiset(init) + multiset{x};
    }
  }

  // ---------------------------------------------------------------------
  // Easy large values

  /** `get_easy_large_vals()`: 163 together with the catalogued levels above
      100 whose entry is complete. The list the source returns is only used
      for membership, so its order is not modelled. */
  method GetEasyLargeVals(cat: Catalogue) returns (vals: set<int>)
    ensures forall N :: N in vals <==> N == 163 || (N in cat && N > 100 && cat[N].isComplete)
  {
    vals := {163};
    var remaining := cat.Keys;
    while remaining != {}
      invariant remaining <= cat.Keys
      invariant forall N :: N in vals <==>
        N == 163 || (N in cat && N !in remaining && N > 100 && cat[N].isComplete)
      decreases |remaining|
    {
      var N := Pick(remaining);
      if N > 100 && cat[N].isComplete {
        vals := vals + {N};
      }
      remaining := remaining - {N};
    }
  }

  // ---------------------------------------------------------------------
  // Plus part

  /** The rank of the twist of the plus part is zero: every component sends
      the winding element to zero and the twisted winding element to a
      non-zero image (the opposite winding polarity to the minus part). */
  predicate TwistRankZeroPlus(components: seq<PeriodImages>) {
    forall i :: 0 <= i < |components| ==>
      components[i].windingZero && !components[i].twistedWindingZero
  }

  /** `is_rank_of_twist_zero_plus(p, chi)`: early-exit loop over the
      components. */
  method IsRankOfTwistZeroPlus(components: seq<PeriodImages>) returns (r: bool)
    ensures r <==> TwistRankZeroPlus(components)
  {
    for i := 0 to |components|
      invariant forall k :: 0 <= k < i ==>
        components[k].windingZero && !components[k].twistedWindingZero
    {
      if !components[i].windingZero {
        return false;
      }
      if components[i].twistedWindingZero {
        return false;
      }
    }
    return true;
  }

  /** `is_torsion_same_plus(p, chi, B, uniform)`: the point counts over the
      Frobenius data have gcd 1, i.e. no k >= 2 divides all of them. */
  method IsTorsionSamePlus(p: int, chi: int -> int, pointCount: (int, int, int) -> int, B: int, uniform: bool)
    returns (r: bool)
    ensures r <==> GcdSeq(PointCounts(p, FrobPolyData(p, chi, B, uniform), pointCount)) == 1
    ensures r <==> forall k :: k >= 2 ==> !DividesAll(k, PointCounts(p, FrobPolyData(p, chi, B, uniform), pointCount))
  {
    var data := FrobPolyData(p, chi, B, uniform);
    var counts := CollectPointCounts(p, data, pointCount);
    GcdSeqIsOne(counts);
    r := 1 == GcdSeq(counts);
  }

  /** The two conditions `check_mwgp_same_plus` combines. */
  ghost predicate MwgpSamePlus(p: int, o: Oracles) {
    && TwistRankZeroPlus(o.plusComponents(p))
    && GcdSeq(PointCounts(p, FrobPolyData(p, o.chi, 100, false), o.plusPointCount)) == 1
  }

  /** `check_mwgp_same_plus(p, d)`: the twist-rank test, and only when it
      succeeds the torsion test with the defaults B = 100, non-uniform. */
  method CheckMwgpSamePlus(p: int, o: Oracles) returns (r: bool)
    ensures r <==> MwgpSamePlus(p, o)
    ensures r ==> TwistRankZeroPlus(o.plusComponents(p))
  {
    var rankZero := IsRankOfTwistZeroPlus(o.plusComponents(p));
    if rankZero {
      var torsionSame := IsTorsionSamePlus(p, o.chi, o.plusPointCount, 100, false);
      if torsionSame {
        return true;
      }
    }
    return false;
  }
}
