/**
 * sage_code/non_hyperelliptic_verifs.py: the Ozman sieve and the "minus part"
 * Mordell-Weil checks. The modular-symbols, Frobenius and class-group
 * computations are the oracle answers passed in.
 */
module NonHyperellipticVerifs {
  import opened Arith
  import opened Types

  // ---------------------------------------------------------------------
  // Ozman sieve

  /** Discriminant of the imaginary quadratic field Q(sqrt(-N)). */
  function ImaginaryDiscriminant(N: Level): int {
    FieldDiscriminant(-SquarefreePart(N))
  }

  /** `oezman_sieve(p, N)`: True when p divides the discriminant of
      Q(sqrt(-N)); otherwise the class-group answer for a prime above p. */
  function OezmanSieve(p: int, N: Level, primeClassTrivial: (int, int) -> bool): bool {
    if Divides(p, ImaginaryDiscriminant(N)) then true else primeClassTrivial(p, N)
  }

  /** For square-free N, an odd prime dividing N makes the sieve return True
      whatever the class group says; an odd prime not dividing N leaves the
      answer to the class group. */
  lemma OezmanSieveOddPrime(p: int, N: Level, primeClassTrivial: (int, int) -> bool)
    requires IsPrime(p) && p != 2 && IsSquarefree(N)
    ensures Divides(p, N) ==> OezmanSieve(p, N, primeClassTrivial)
    ensures !Divides(p, N) ==> OezmanSieve(p, N, primeClassTrivial) == primeClassTrivial(p, N)
  {
    var n: int := N;
    DiscriminantOfSquarefree(N);
    OddPrimeRamified(-n, p);
    RamifiedDividesDiscriminant(-n, p);
    DividesAbs(p, n);
    DividesAbs(p, -n);
  }

  lemma DiscriminantOfSquarefree(N: Level)
    requires IsSquarefree(N)
    ensures ImaginaryDiscriminant(N) == FieldDiscriminant(-(N as int))
  {
  }

  lemma RamifiedDividesDiscriminant(d: int, p: int)
    requires d != 0 && IsPrime(p)
    ensures p in RamifiedPrimes(d) <==> Divides(p, FieldDiscriminant(d))
  {
  }

  /** The verdict `try_oezman_sieve(d, N)` computes: True (the sieve fails to
      rule N out) when N is not square-free or when every ramified prime of
      Q(sqrt(d)) passes `oezman_sieve`. */
  ghost predicate SieveInconclusive(d: int, N: Level, primeClassTrivial: (int, int) -> bool)
    requires d != 0
  {
    !IsSquarefree(N) || forall p :: p in RamifiedPrimes(d) ==> OezmanSieve(p, N, primeClassTrivial)
  }

  /** `try_oezman_sieve(d, N)`: square-free escape, then an early-exit loop
      over the ramified primes, in increasing order. */
  method TryOezmanSieve(d: int, N: Level, primeClassTrivial: (int, int) -> bool) returns (r: bool)
    requires d != 0
    ensures !IsSquarefree(N) ==> r
    ensures IsSquarefree(N) ==>
      (!r <==> exists p :: p in RamifiedPrimes(d) && !OezmanSieve(p, N, primeClassTrivial))
    ensures r == SieveInconclusive(d, N, primeClassTrivial)
  {
    if !IsSquarefree(N) {
      return true;
    }
    var ramPrimes := RamifiedPrimes(d);
    var i := 0;
    while i < |ramPrimes|
      invariant 0 <= i <= |ramPrimes|
      invariant forall k :: 0 <= k < i ==> OezmanSieve(ramPrimes[k], N, primeClassTrivial)
    {
      if !OezmanSieve(ramPrimes[i], N, primeClassTrivial) {
        return false;
      }
      i := i + 1;
    }
    return true;
  }

  // ---------------------------------------------------------------------
  // Twisted winding elements (minus part)

  /** The rank of the twist of the minus part is zero: every component sends
      both the winding element and the twisted winding element to non-zero
      images. */
  predicate TwistRankZeroMinus(components: seq<PeriodImages>) {
    forall i :: 0 <= i < |components| ==>
      !components[i].windingZero && !components[i].twistedWindingZero
  }

  /** `is_rank_of_twist_zero(p, chi)` (imported by sage_code/utils.py as
      `is_rank_of_twist_zero_minus`): early-exit loop over the components. */
  method IsRankOfTwistZero(components: seq<PeriodImages>) returns (r: bool)
    ensures r <==> TwistRankZeroMinus(components)
  {
    for i := 0 to |components|
      invariant forall k :: 0 <= k < i ==>
        !components[k].windingZero && !components[k].twistedWindingZero
    {
      if components[i].windingZero {
        return false;
      }
      if components[i].twistedWindingZero {
        return false;
      }
    }
    return true;
  }

  // ---------------------------------------------------------------------
  // Torsion (minus part)

  /** For a prime q: gcd(q, p) = 1 exactly when q does not divide p. */
  lemma PrimeCoprime(q: int, p: int)
    requires IsPrime(q)
    ensures Gcd(q, Abs(p)) == 1 <==> !Divides(q, p)
  {
    GcdIsOne(q, Abs(p));
    DividesAbs(q, p);
    if !Divides(q, p) {
      forall k | k >= 2 && Divides(k, q)
        ensures !Divides(k, Abs(p))
      {
        DivisorBound(k, q);
      }
    } else {
      DividesMul(q, 1);
      assert Divides(q, q);
    }
  }

  /** Whether (q, e) belongs in `frob_poly_data` for a prime q in range: in
      uniform mode every q != p with exponent 2, otherwise every q with
      gcd(q, p) = 1, with exponent 1 when chi(q) = 1 and 2 otherwise. */
  predicate FrobEntry(q: int, e: int, p: int, chi: int -> int, uniform: bool) {
    if uniform then q != p && e == 2
    else !Divides(q, p) && e == (if chi(q) == 1 then 1 else 2)
  }

  /** The entry the comprehension produces for the candidate q, if any. */
  function FrobHead(q: int, p: int, chi: int -> int, uniform: bool): (h: seq<(int, int)>)
    ensures |h| <= 1
    ensures forall k :: 0 <= k < |h| ==> h[k].0 == q
    ensures forall q', e :: (q', e) in h <==> q' == q && IsPrime(q) && FrobEntry(q, e, p, chi, uniform)
  {
    if !IsPrime(q) then []
    else if uniform then (if q != p then [(q, 2)] else [])
    else
      PrimeCoprime(q, p);
      if Gcd(q, Abs(p)) == 1 then [(q, if chi(q) == 1 then 1 else 2)] else []
  }

  /** The list comprehension `frob_poly_data`, from the candidate q0 on: the
      entries for the primes q0 <= q < B, in increasing order of q. */
  function FrobPolyDataFrom(q0: int, p: int, chi: int -> int, B: int, uniform: bool): (r: seq<(int, int)>)
    ensures forall k :: 0 <= k < |r| ==> q0 <= r[k].0 < B
    ensures forall k, l :: 0 <= k < l < |r| ==> r[k].0 < r[l].0
    ensures forall q, e :: (q, e) in r <==> q0 <= q < B && IsPrime(q) && FrobEntry(q, e, p, chi, uniform)
    decreases B - q0
  {
    if q0 >= B then []
    else
      var rest := FrobPolyDataFrom(q0 + 1, p, chi, B, uniform);
      var head := FrobHead(q0, p, chi, uniform);
      ConsEntries(q0, B, head, rest, (q: int, e: int) => IsPrime(q) && FrobEntry(q, e, p, chi, uniform));
      head + rest
  }

  /** Putting the entry for q0 (if any) in front of the entries for
      q0 < q < B gives the entries for q0 <= q < B, still ordered by q. */
  lemma ConsEntries(q0: int, B: int, head: seq<(int, int)>, rest: seq<(int, int)>, wanted: (int, int) -> bool)
    requires q0 < B && |head| <= 1
    requires forall k :: 0 <= k < |head| ==> head[k].0 == q0
    requires forall q, e :: (q, e) in head <==> q == q0 && wanted(q, e)
    requires forall k :: 0 <= k < |rest| ==> q0 + 1 <= rest[k].0 < B
    requires forall k, l :: 0 <= k < l < |rest| ==> rest[k].0 < rest[l].0
    requires forall q, e :: (q, e) in rest <==> q0 + 1 <= q < B && wanted(q, e)
    ensures forall k :: 0 <= k < |head + rest| ==> q0 <= (head + rest)[k].0 < B
    ensures forall k, l :: 0 <= k < l < |head + rest| ==> (head + rest)[k].0 < (head + rest)[l].0
    ensures forall q, e :: (q, e) in head + rest <==> q0 <= q < B && wanted(q, e)
  {
    var r := head + rest;
    forall k | 0 <= k < |r|
      ensures q0 <= r[k].0 < B
    {
      if k >= |head| {
        assert r[k] == rest[k - |head|];
      }
    }
    forall k, l | 0 <= k < l < |r|
      ensures r[k].0 < r[l].0
    {
      assert r[l] == rest[l - |head|];
      if k >= |head| {
        assert r[k] == rest[k - |head|];
      }
    }
    forall q, e
      ensures (q, e) in r <==> q0 <= q < B && wanted(q, e)
    {
      assert (q, e) in r <==> (q, e) in head || (q, e) in rest;
    }
  }

  /** `frob_poly_data` as written: the candidates are `prime_range(d + 2, B)`
      with the local `d = 2`, i.e. the primes 5 <= q < B. */
  function FrobPolyData(p: int, chi: int -> int, B: int, uniform: bool): seq<(int, int)> {
    FrobPolyDataFrom(4, p, chi, B, uniform)
  }

  /** The list of point counts, one per entry of the Frobenius data. */
  function PointCounts(p: int, data: seq<(int, int)>, pointCount: (int, int, int) -> int): (r: seq<int>)
    ensures |r| == |data|
    ensures forall k :: 0 <= k < |data| ==> r[k] == pointCount(p, data[k].0, data[k].1)
  {
    if data == [] then []
    else [pointCount(p, data[0].0, data[0].1)] + PointCounts(p, data[1..], pointCount)
  }

  /** The loop that appends one point count per entry of the Frobenius data
      (shared by the minus and the plus torsion tests). */
  method CollectPointCounts(p: int, data: seq<(int, int)>, pointCount: (int, int, int) -> int)
    returns (counts: seq<int>)
    ensures counts == PointCounts(p, data, pointCount)
  {
    counts := [];
    for k := 0 to |data|
      invariant counts == PointCounts(p, data[..k], pointCount)
    {
      var (q, e) := data[k];
      assert data[..k + 1] == data[..k] + [data[k]];
      PointCountsAppend(p, data[..k], data[k], pointCount);
      counts := counts + [pointCount(p, q, e)];
    }
    assert data[..|data|] == data;
  }

  lemma {:induction false} PointCountsAppend(p: int, data: seq<(int, int)>, x: (int, int), pointCount: (int, int, int) -> int)
    ensures PointCounts(p, data + [x], pointCount) == PointCounts(p, data, pointCount) + [pointCount(p, x.0, x.1)]
  {
    if data != [] {
      assert (data + [x])[1..] == data[1..] + [x];
      PointCountsAppend(p, data[1..], x, pointCount);
    }
  }

  /** `is_torsion_same(p, chi, B, uniform)`: the point counts over the
      Frobenius data, and a comparison of their gcd with the rational torsion
      order of J0(p). */
  method IsTorsionSame(p: int, chi: int -> int, pointCount: (int, int, int) -> int,
                       torsionOrder: int, B: int, uniform: bool) returns (r: bool)
    ensures r <==> torsionOrder == GcdSeq(PointCounts(p, FrobPolyData(p, chi, B, uniform), pointCount))
  {
    var data := FrobPolyData(p, chi, B, uniform);
    var counts := CollectPointCounts(p, data, pointCount);
    r := torsionOrder == GcdSeq(counts);
  }

  /** The two conditions `check_mwgp_same_minus` combines. */
  ghost predicate MwgpSameMinus(p: int, o: Oracles) {
    && TwistRankZeroMinus(o.minusComponents(p))
    && o.torsionOrder(p) == GcdSeq(PointCounts(p, FrobPolyData(p, o.chi, 30, false), o.minusPointCount))
  }

  /** `check_mwgp_same_minus(p, d)`: the twist-rank test, and only when it
      succeeds the torsion test with the defaults B = 30, non-uniform. */
  method CheckMwgpSameMinus(p: int, o: Oracles) returns (r: bool)
    ensures r <==> MwgpSameMinus(p, o)
    ensures r ==> TwistRankZeroMinus(o.minusComponents(p))
  {
    var rankZero := IsRankOfTwistZero(o.minusComponents(p));
    if rankZero {
      var torsionSame := IsTorsionSame(p, o.chi, o.minusPointCount, o.torsionOrder(p), 30, false);
      if torsionSame {
        return true;
      }
    }
    return false;
  }
}
