/**
 * utils.py (top level): the older `minimally_finite(d)`, which scans every
 * level 11 <= N < 800 instead of building products of genus-one levels and
 * small primes. The rank of each genus-one twist and the genus of X_0(N)
 * are oracles; `is_atkin_lehner_divisor` there is the same function as
 * `SageUtils.IsAtkinLehnerDivisor`.
 */
module LegacyUtils {
  import opened Arith
  import opened Types
  import opened SageUtils

  /** The levels kept whatever the rank data says. */
  const AlwaysKept: set<Level> := {37, 43, 67, 163}

  /** Every proper divisor of N is a genus-zero level or a positive-rank
      genus-one level. */
  predicate Admissible(N: Level, positive: seq<Level>) {
    forall k :: 1 <= k < N && Divides(k, N) ==> k in GenusZeroList || k in positive
  }

  /** The test the scan applies to N. */
  predicate Selected(N: Level, zero: seq<Level>, positive: seq<Level>, genus: Level -> int) {
    N in AlwaysKept || ((N in zero || (genus(N) > 1 && !IsPrime(N))) && Admissible(N, positive))
  }

  /** The levels 11 <= N < n that pass the test, in increasing order. */
  function SelectedBelow(n: int, zero: seq<Level>, positive: seq<Level>, genus: Level -> int): (r: seq<Level>)
    requires n >= 11
    ensures StrictlyIncreasing(r)
    ensures forall x :: x in r <==> 11 <= x < n && Selected(x, zero, positive, genus)
    decreases n
  {
    if n == 11 then []
    else
      var rest := SelectedBelow(n - 1, zero, positive, genus);
      if Selected(n - 1, zero, positive, genus) then
        var r := rest + [n - 1];
        assert forall i :: 0 <= i < |rest| ==> rest[i] in rest;
        r
      else rest
  }

  /** The list `minimally_finite` returns for the given rank split. */
  function LegacyList(zero: seq<Level>, positive: seq<Level>, genus: Level -> int): (r: seq<Level>)
    ensures StrictlyIncreasing(r)
    ensures forall x :: x in r ==> 11 <= x < 800
    ensures forall x :: x in AlwaysKept ==> x in r
    ensures forall x :: x in r && x !in AlwaysKept ==>
      (x in zero || (genus(x) > 1 && !IsPrime(x))) && Admissible(x, positive)
    ensures forall x :: x in r && x !in AlwaysKept && IsPrime(x) ==> x in zero
  {
    SelectedBelow(800, zero, positive, genus)
  }

  /** `set(proper divisors of N).issubset(admissible_divisors)`. */
  method DivisorsAdmissible(N: Level, positive: seq<Level>) returns (ok: bool)
    ensures ok <==> Admissible(N, positive)
  {
    for k := 1 to N
      invariant forall j :: 1 <= j < k && Divides(j, N) ==> j in GenusZeroList || j in positive
    {
      if Divides(k, N) && !(k in GenusZeroList || k in positive) {
        return false;
      }
    }
    return true;
  }

  /** `minimally_finite(d)` of utils.py, with the twist ranks over
      Q(sqrt(d)) and the genus of X_0(N) given as oracles. */
  method LegacyMinimallyFinite(positiveRank: Level -> bool, genus: Level -> int) returns (output: seq<Level>)
    ensures output == LegacyList(RankFilter(GenusOneList, positiveRank, false),
                                 RankFilter(GenusOneList, positiveRank, true), genus)
  {
    var positive, zero := RankSplit(positiveRank);
    output := [];
    for N := 11 to 800
      invariant output == SelectedBelow(N, zero, positive, genus)
    {
      if N in AlwaysKept {
        output := output + [N];
      } else if N in zero || (genus(N) > 1 && !IsPrime(N)) {
        var ok := DivisorsAdmissible(N, positive);
        if ok {
          output := output + [N];
        }
      }
    }
  }
}
