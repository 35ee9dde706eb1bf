/**
 * sage_code/large_possible_isogeny_primes.py: the large possible isogeny
 * primes of Q(sqrt(d)) for the d the solver supports, as found by the
 * Isogeny Primes program of Banwait and Derickx.
 */
module LargePrimes {
  import opened Types

  /** `LPIP`: d -> the large primes that may still be isogeny degrees. */
  const Lpip: map<int, seq<Level>> :=
    map[137 := [23, 137], 191 := [], 213 := [], 389 := [23, 389], 438 := [], 463 := [], 467 := [59]]
}
