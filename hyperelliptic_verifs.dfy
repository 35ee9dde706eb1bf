/** The Najman-Trbovic filter of sage_code/hyperelliptic_verifs.py. */
module HyperellipticVerifs {
  import opened Arith
  import opened Types

  /** `try_najman_trbovic_filter(d, N)` (imported by the solver under the name
      `try_trbovic_filter`). The catalogue lookup is unconditional: a level
      without an entry is the KeyError of that lookup. Otherwise the answer is
      False exactly when a prime listed as unramified for N ramifies in
      Q(sqrt(d)), which is the case where the filter rules N out. */
  function TryNajmanTrbovicFilter(d: int, N: int, cat: Catalogue): (r: Result<bool>)
    requires d != 0
    ensures N !in cat <==> r == Err(KeyError(N))
    ensures N in cat ==> r.Ok?
  {
    if N !in cat then Err(KeyError(N))
    else
      var ramPrimes := RamifiedPrimes(d);
      var unramPrimes := cat[N].unramifiedPrimes;
      Ok(!(exists p :: p in unramPrimes && p in ramPrimes))
  }

  /** The filter in terms of d alone: it returns False exactly when the
      catalogue lists, as unramified for N, either an odd prime dividing d, or
      the prime 2 while d is not 1 mod 4. With no unramified primes listed it
      returns True for every d. */
  lemma {:induction false} NajmanTrbovicByDivisibility(d: int, N: int, cat: Catalogue)
    requires d != 0 && N in cat
    ensures TryNajmanTrbovicFilter(d, N, cat) == Ok(false) <==>
      exists p :: p in cat[N].unramifiedPrimes && IsPrime(p) &&
        ((p == 2 && d % 4 != 1) || (p != 2 && Divides(p, d)))
    ensures cat[N].unramifiedPrimes == [] ==> TryNajmanTrbovicFilter(d, N, cat) == Ok(true)
  {
    var unram := cat[N].unramifiedPrimes;
    forall p | p in unram
      ensures p in RamifiedPrimes(d) <==>
        IsPrime(p) && ((p == 2 && d % 4 != 1) || (p != 2 && Divides(p, d)))
    {
      if p == 2 {
        TwoRamified(d);
      } else if IsPrime(p) {
        OddPrimeRamified(d, p);
      }
    }
  }

  /** For d = 213 (which is 1 mod 4) the discriminant the code uses is 213
      itself, so 2 is not among the primes the filter compares against,
      while 3 is. */
  lemma RamifiedAt213()
    ensures FieldDiscriminant(213) == 213
    ensures 2 !in RamifiedPrimes(213) && 3 in RamifiedPrimes(213)
  {
    OneModFourDiscriminant(213);
    assert IsPrime(3) && Divides(3, 213);
    OddPrimeRamified(213, 3);
  }

  /** For d = 1 mod 4 the discriminant is d itself, so 2 does not ramify. */
  lemma OneModFourDiscriminant(d: int)
    requires d != 0 && d % 4 == 1
    ensures FieldDiscriminant(d) == d
    ensures 2 !in RamifiedPrimes(d)
  {
    TwoRamified(d);
  }
}
