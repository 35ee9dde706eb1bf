/**
 * sage_code/quadratic_kenku_solver.py: for one quadratic field Q(sqrt(d)),
 * the number of j-invariants admitting a cyclic N-isogeny, for every N that
 * can occur. Levels of positive-rank genus-one curves get `+Infinity`; the
 * other minimally finite levels are settled level by level from the
 * quadratic-points catalogue, the filters and the oracles, and every
 * j-invariant found is pushed through the isogeny-class computation to find
 * the unrecorded isogenies.
 */
module KenkuSolver {
  import opened Arith
  import opened Types
  import opened Lists
  import opened HyperellipticVerifs
  import opened NonHyperellipticVerifs
  import opened SageUtils
  import opened IsogenyGraphs
  import opened LargePrimes

  // ---------------------------------------------------------------------
  // Summing count dictionaries: `reducer` and `reduce(reducer, ..., {})`
  // ---------------------------------------------------------------------

  /** `accumulator.get(key, 0)`. */
  function Get(m: map<Level, Count>, k: Level): Count {
    if k in m then m[k] else Fin(0)
  }

  /** The dictionary `reducer(accumulator, element)` leaves behind. */
  function SumInto(acc: map<Level, Count>, element: map<Level, Count>): (r: map<Level, Count>)
    ensures forall k :: k in r <==> k in acc || k in element
    ensures forall k :: k in element ==> r[k] == Add(Get(acc, k), element[k])
    ensures forall k :: k in acc && k !in element ==> r[k] == acc[k]
  {
    map k | k in acc.Keys + element.Keys ::
      if k in element then Add(Get(acc, k), element[k]) else acc[k]
  }

  /** A dictionary of counts that `reducer` updates in place. */
  class CountDict {
    var entries: map<Level, Count>

    constructor ()
      ensures entries == map[]
    {
      entries := map[];
    }

    /** `reducer(self.entries, element)`: each value of element is added to
        the entry under the same key (a missing entry counts as 0); the
        entries under the other keys stay as they were. */
    method Reduce(element: map<Level, Count>)
      modifies this
      ensures entries == SumInto(old(entries), element)
      ensures forall k :: k in element ==> entries[k] == Add(Get(old(entries), k), element[k])
      ensures forall k :: k !in element ==> Get(entries, k) == Get(old(entries), k)
    {
      ghost var start := entries;
      var rest := element.Keys;
      while rest != {}
        invariant rest <= element.Keys
        invariant forall k :: k in entries <==> k in start || (k in element && k !in rest)
        invariant forall k :: k in element && k !in rest ==> entries[k] == Add(Get(start, k), element[k])
        invariant forall k :: k in start && (k !in element || k in rest) ==> entries[k] == start[k]
        decreases |rest|
      {
        var k := Pick(rest);
        entries := entries[k := Add(Get(entries, k), element[k])];
        rest := rest - {k};
      }
      SumIntoEqual(entries, start, element);
    }
  }

  lemma SumIntoEqual(m: map<Level, Count>, acc: map<Level, Count>, element: map<Level, Count>)
    requires forall k :: k in m <==> k in acc || k in element
    requires forall k :: k in element ==> m[k] == Add(Get(acc, k), element[k])
    requires forall k :: k in acc && k !in element ==> m[k] == acc[k]
    ensures m == SumInto(acc, element)
  {
    var spec := SumInto(acc, element);
    assert m.Keys == spec.Keys;
  }

  /** `reduce(reducer, ds[..n], {})`. */
  function FoldSum(ds: seq<map<Level, Count>>, n: nat): map<Level, Count>
    requires n <= |ds|
  {
    if n == 0 then map[]
    else SumInto(FoldSum(ds, n - 1), ds[n - 1])
  }

  /** The sum over the first n dictionaries of ds of their values under k,
      a missing key counting 0. */
  function Total(ds: seq<map<Level, Count>>, n: nat, k: Level): Count
    requires n <= |ds|
  {
    if n == 0 then Fin(0)
    else Add(Total(ds, n - 1, k), Get(ds[n - 1], k))
  }

  /** The sum is `+Infinity` exactly when one of the summands is. */
  lemma {:induction false} TotalInf(ds: seq<map<Level, Count>>, n: nat, k: Level)
    requires n <= |ds|
    ensures Total(ds, n, k) == Inf <==> exists i :: 0 <= i < n && Get(ds[i], k) == Inf
  {
    if n > 0 {
      TotalInf(ds, n - 1, k);
    }
  }

  /** The sum is 0 exactly when every summand is 0. */
  lemma {:induction false} TotalZero(ds: seq<map<Level, Count>>, n: nat, k: Level)
    requires n <= |ds|
    ensures Total(ds, n, k) == Fin(0) <==> forall i :: 0 <= i < n ==> Get(ds[i], k) == Fin(0)
  {
    if n > 0 {
      TotalZero(ds, n - 1, k);
    }
  }

  /** `reduce(reducer, ds, {})` is the keywise sum: its keys are the keys of
      the summands, and under each key it holds the total of the values. */
  lemma {:induction false} FoldSumIsKeywiseSum(ds: seq<map<Level, Count>>, n: nat)
    requires n <= |ds|
    ensures forall k :: k in FoldSum(ds, n) <==> exists i :: 0 <= i < n && k in ds[i]
    ensures forall k :: k in FoldSum(ds, n) ==> FoldSum(ds, n)[k] == Total(ds, n, k)
  {
    if n > 0 {
      FoldSumIsKeywiseSum(ds, n - 1);
      var prev := FoldSum(ds, n - 1);
      var cur := FoldSum(ds, n);
      assert cur == SumInto(prev, ds[n - 1]);
      forall k | k in cur
        ensures cur[k] == Total(ds, n, k)
      {
        assert Total(ds, n, k) == Add(Total(ds, n - 1, k), Get(ds[n - 1], k));
        if k !in prev {
          TotalZero(ds, n - 1, k);
          assert Total(ds, n - 1, k) == Get(prev, k);
        } else {
          assert Total(ds, n - 1, k) == Get(prev, k);
        }
      }
    }
  }

  /** `reduce(reducer, ds, {})`, with a fresh accumulator. */
  method ReduceAll(ds: seq<map<Level, Count>>) returns (ans: map<Level, Count>)
    ensures ans == FoldSum(ds, |ds|)
  {
    var acc := new CountDict();
    for i := 0 to |ds|
      invariant acc.entries == FoldSum(ds, i)
    {
      acc.Reduce(ds[i]);
    }
    ans := acc.entries;
  }

  /** `{k: ans[k] for k in ans if ans[k] != 0}`. */
  function DropZeros(m: map<Level, Count>): (r: map<Level, Count>)
    ensures forall k :: k in r <==> k in m && m[k] != Fin(0)
    ensures forall k :: k in r ==> r[k] == m[k]
  {
    map k | k in m && m[k] != Fin(0) :: m[k]
  }

  /** A dictionary of plain counts, as counts. */
  function Counts(m: map<Level, nat>): (r: map<Level, Count>)
    ensures forall k :: k in r <==> k in m
    ensures forall k :: k in r ==> r[k] == Fin(m[k])
  {
    map k | k in m :: Fin(m[k])
  }

  // ---------------------------------------------------------------------
  // `unique_j_inv_count`: Galois-conjugate expansion
  // ---------------------------------------------------------------------

  /** One catalogue point (a, b): the rational j-invariant a when b = 0,
      otherwise the conjugate pair a + b*g, a - b*g. */
  function Expand(p: (real, real)): (r: seq<JInv>)
    ensures |r| == if p.1 == 0.0 then 1 else 2
    ensures r[0] == QuadElt(p.0, p.1)
    ensures p.1 != 0.0 ==> r[1] == Conjugate(r[0])
  {
    if p.1 == 0.0 then [QuadElt(p.0, 0.0)] else [QuadElt(p.0, p.1), QuadElt(p.0, -p.1)]
  }

  /** The list `j_invs_unpacked`. */
  function Unpack(pairs: seq<(real, real)>): seq<JInv> {
    if pairs == [] then []
    else Unpack(pairs[..|pairs| - 1]) + Expand(pairs[|pairs| - 1])
  }

  /** Number of rational points (b = 0) among the pairs. */
  function NumRational(pairs: seq<(real, real)>): nat {
    |set i | 0 <= i < |pairs| && pairs[i].1 == 0.0|
  }

  /** `unique_j_inv_count`: the count is the length of the list, and an
      empty input gives (0, []). */
  method UniqueJInvCount(pairs: seq<(real, real)>) returns (count: nat, js: seq<JInv>)
    ensures js == Unpack(pairs)
    ensures count == |js|
    ensures pairs == [] ==> count == 0 && js == []
  {
    if pairs == [] {
      return 0, [];
    }
    js := [];
    for i := 0 to |pairs|
      invariant js == Unpack(pairs[..i])
    {
      var (a, b) := pairs[i];
      if b == 0.0 {
        js := js + [QuadElt(a, 0.0)];
      } else {
        js := js + [QuadElt(a, b), QuadElt(a, -b)];
      }
      assert pairs[..i + 1][..i] == pairs[..i];
    }
    assert pairs[..|pairs|] == pairs;
    count := |js|;
  }

  lemma {:induction false} UnpackAppend(a: seq<(real, real)>, b: seq<(real, real)>)
    ensures Unpack(a + b) == Unpack(a) + Unpack(b)
    decreases |b|
  {
    if b != [] {
      var binit := b[..|b| - 1];
      assert (a + b)[..|a + b| - 1] == a + binit;
      UnpackAppend(a, binit);
    } else {
      assert a + b == a;
    }
  }

  lemma RationalSplit(pairs: seq<(real, real)>)
    requires pairs != []
    ensures NumRational(pairs) ==
      NumRational(pairs[..|pairs| - 1]) + (if pairs[|pairs| - 1].1 == 0.0 then 1 else 0)
  {
    var n := |pairs| - 1;
    var init := pairs[..n];
    var A := set i | 0 <= i < |pairs| && pairs[i].1 == 0.0;
    var B := set i | 0 <= i < |init| && init[i].1 == 0.0;
    if pairs[n].1 == 0.0 {
      assert A == B + {n};
    } else {
      assert A == B;
    }
  }

  /** The count of `unique_j_inv_count` is #(b = 0) + 2 * #(b != 0). */
  lemma {:induction false} UnpackLength(pairs: seq<(real, real)>)
    ensures |Unpack(pairs)| == NumRational(pairs) + 2 * (|pairs| - NumRational(pairs))
  {
    if pairs != [] {
      UnpackLength(pairs[..|pairs| - 1]);
      RationalSplit(pairs);
    }
  }

  /** Where the j-invariants of the i-th pair start in the unpacked list. */
  function Offset(pairs: seq<(real, real)>, i: nat): nat
    requires i <= |pairs|
  {
    |Unpack(pairs[..i])|
  }

  /** The i-th pair unpacks to a block at its offset, the blocks follow the
      input order, and a conjugate pair sits side by side. */
  lemma UnpackLayout(pairs: seq<(real, real)>, i: nat)
    requires i < |pairs|
    ensures Offset(pairs, i + 1) == Offset(pairs, i) + |Expand(pairs[i])|
    ensures Offset(pairs, i + 1) <= |Unpack(pairs)|
    ensures Unpack(pairs)[Offset(pairs, i)..Offset(pairs, i + 1)] == Expand(pairs[i])
  {
    var pre := pairs[..i];
    var post := pairs[i + 1..];
    assert pairs[..i + 1] == pre + [pairs[i]];
    assert pairs == pre + [pairs[i]] + post;
    UnpackAppend(pre, [pairs[i]]);
    assert Unpack([pairs[i]]) == Expand(pairs[i]) by {
      assert [pairs[i]][..0] == [];
    }
    UnpackAppend(pre + [pairs[i]], post);
  }

  /** The unpacked list is closed under Galois conjugation. */
  lemma {:induction false} UnpackConjugateClosed(pairs: seq<(real, real)>)
    ensures forall x :: x in Unpack(pairs) ==> Conjugate(x) in Unpack(pairs)
  {
    if pairs != [] {
      var init := pairs[..|pairs| - 1];
      UnpackConjugateClosed(init);
      var e := Expand(pairs[|pairs| - 1]);
      assert forall x :: x in e ==> Conjugate(x) in e;
    }
  }

  // ---------------------------------------------------------------------
  // One level: `process_hyperelliptic` and `process_non_hyperelliptic`
  // ---------------------------------------------------------------------

  /** `data_this_z["non_cm_points"].get(str(d), [])`. */
  function PointsAt(e: CatalogueEntry, d: int): seq<(real, real)> {
    if d in e.nonCmPoints then e.nonCmPoints[d] else []
  }

  /** The two rational j-invariants of X0(37). */
  const Rational37: seq<JInv> := [QuadElt(-162677523113838677.0, 0.0), QuadElt(-9317.0, 0.0)]

  /** What the body of a `process_*` loop settles for one level z: the
      j-invariants found on X0(z) (with their count), or no points at all. */
  datatype LevelOutcome = WithPoints(count: nat, jInvs: seq<JInv>) | NoPoints

  /** How many j-invariants a level contributes to `output_dict[z]`. */
  function OutcomeCount(outcome: LevelOutcome): nat {
    match outcome
    case WithPoints(count, _) => count
    case NoPoints => 0
  }

  /** The body of the loop of `process_hyperelliptic` for the level z, up to
      the call of `unrecorded_isogenies`. Away from 37 the level is given up
      when both the Najman-Trbovic filter and the Oezman sieve are
      inconclusive; 37 is settled by the twist of 37b1, the preimage count or
      the plus check. */
  ghost function HyperStep(d: int, z: Level, cat: Catalogue, o: Oracles): (r: Result<LevelOutcome>)
    requires d != 0
    ensures z !in cat <==> r == Err(KeyError(z))
    ensures r.Err? ==> r.error == KeyError(z) || r.error == NotImplemented(z)
    ensures z in cat && z != 37 ==>
      (r.Err? <==> TryNajmanTrbovicFilter(d, z, cat) == Ok(true) && SieveInconclusive(d, z, o.primeClassTrivial))
    ensures z in cat && z == 37 ==>
      (r.Ok? <==> (o.twist37bRankZero && o.preimageCount37 == 4) ||
                  (!o.twist37bRankZero && MwgpSamePlus(37, o) && !SieveInconclusive(d, 37, o.primeClassTrivial)))
    ensures r.Ok? ==> r.value.WithPoints? && r.value.count == |r.value.jInvs|
  {
    if z !in cat then Err(KeyError(z))
    else if z != 37 then
      if TryNajmanTrbovicFilter(d, z, cat).value && SieveInconclusive(d, z, o.primeClassTrivial) then
        Err(NotImplemented(z))
      else
        var js := Unpack(PointsAt(cat[z], d));
        Ok(WithPoints(|js|, js))
    else if o.twist37bRankZero then
      if o.preimageCount37 == 4 then Ok(WithPoints(2, Rational37)) else Err(NotImplemented(z))
    else if MwgpSamePlus(37, o) && !SieveInconclusive(d, 37, o.primeClassTrivial) then
      Ok(WithPoints(2, Rational37))
    else
      Err(NotImplemented(z))
  }

  /** The body of the loop of `process_non_hyperelliptic` for the level z, up
      to the call of `unrecorded_isogenies`. A catalogued level is given up
      only when its entry is incomplete and both the Oezman sieve and the
      minus check fail; an uncatalogued one has no points when the minus
      check passes, or the plus check passes and the sieve succeeds. */
  ghost function NonHyperStep(d: int, z: Level, cat: Catalogue, o: Oracles): (r: Result<LevelOutcome>)
    requires d != 0
    ensures r.Err? ==> r.error == NotImplemented(z)
    ensures z in cat ==>
      (r.Err? <==> !cat[z].isComplete && SieveInconclusive(d, z, o.primeClassTrivial) && !MwgpSameMinus(z, o))
    ensures z in cat && r.Ok? ==> r.value.WithPoints? && r.value.count == |r.value.jInvs|
    ensures z !in cat ==> (r.Ok? <==> MwgpSameMinus(z, o) ||
                                      (MwgpSamePlus(z, o) && !SieveInconclusive(d, z, o.primeClassTrivial)))
    ensures z !in cat && r.Ok? ==> r.value == NoPoints
  {
    if z in cat then
      if !cat[z].isComplete && SieveInconclusive(d, z, o.primeClassTrivial) && !MwgpSameMinus(z, o) then
        Err(NotImplemented(z))
      else
        var js := Unpack(PointsAt(cat[z], d));
        Ok(WithPoints(|js|, js))
    else if MwgpSameMinus(z, o) then Ok(NoPoints)
    else if MwgpSamePlus(z, o) && !SieveInconclusive(d, z, o.primeClassTrivial) then Ok(NoPoints)
    else Err(NotImplemented(z))
  }

  ghost function Step(hyper: bool, d: int, z: Level, cat: Catalogue, o: Oracles): Result<LevelOutcome>
    requires d != 0
  {
    if hyper then HyperStep(d, z, cat, o) else NonHyperStep(d, z, cat, o)
  }

  method HyperellipticLevel(d: int, z: Level, cat: Catalogue, o: Oracles) returns (r: Result<LevelOutcome>)
    requires d != 0
    ensures r == HyperStep(d, z, cat, o)
  {
    if z !in cat {
      return Err(KeyError(z));
    }
    if z != 37 {
      var filter := TryNajmanTrbovicFilter(d, z, cat);
      if filter.value {
        var inconclusive := TryOezmanSieve(d, z, o.primeClassTrivial);
        if inconclusive {
          return Err(NotImplemented(z));
        }
      }
      var count, js := UniqueJInvCount(PointsAt(cat[z], d));
      return Ok(WithPoints(count, js));
    }
    if o.twist37bRankZero {
      if o.preimageCount37 == 4 {
        return Ok(WithPoints(2, Rational37));
      }
      return Err(NotImplemented(z));
    }
    var plus := CheckMwgpSamePlus(37, o);
    if plus {
      var inconclusive := TryOezmanSieve(d, 37, o.primeClassTrivial);
      if !inconclusive {
        return Ok(WithPoints(2, Rational37));
      }
    }
    return Err(NotImplemented(z));
  }

  method NonHyperellipticLevel(d: int, z: Level, cat: Catalogue, o: Oracles) returns (r: Result<LevelOutcome>)
    requires d != 0
    ensures r == NonHyperStep(d, z, cat, o)
  {
    if z in cat {
      if !cat[z].isComplete {
        var inconclusive := TryOezmanSieve(d, z, o.primeClassTrivial);
        if inconclusive {
          var minus := CheckMwgpSameMinus(z, o);
          if !minus {
            return Err(NotImplemented(z));
          }
        }
      }
      var count, js := UniqueJInvCount(PointsAt(cat[z], d));
      return Ok(WithPoints(count, js));
    }
    var minus := CheckMwgpSameMinus(z, o);
    if minus {
      return Ok(NoPoints);
    }
    var plus := CheckMwgpSamePlus(z, o);
    if plus {
      var inconclusive := TryOezmanSieve(d, z, o.primeClassTrivial);
      if !inconclusive {
        return Ok(NoPoints);
      }
    }
    return Err(NotImplemented(z));
  }

  /** The end of a loop round: the unrecorded isogenies of the j-invariants
      found are merged in (newer counts win, older failures win), then
      `output_dict[z] = isog_count`. */
  function Record(out: map<Level, nat>, failed: map<JInv, int>, z: Level, outcome: LevelOutcome, o: Oracles)
    : (r: (map<Level, nat>, map<JInv, int>))
    ensures z in r.0 && r.0[z] == OutcomeCount(outcome)
  {
    match outcome
    case WithPoints(count, js) =>
      var u := Unrecorded(js, o, Some(z), false);
      ((out + u.0)[z := count], u.1 + failed)
    case NoPoints => (out[z := 0], failed)
  }

  method RecordLevel(out: map<Level, nat>, failed: map<JInv, int>, z: Level, outcome: LevelOutcome, o: Oracles)
    returns (out': map<Level, nat>, failed': map<JInv, int>)
    ensures (out', failed') == Record(out, failed, z, outcome, o)
  {
    match outcome {
      case NoPoints =>
        out', failed' := out[z := 0], failed;
      case WithPoints(count, js) =>
        var u := UnrecordedIsogenies(js, o, Some(z), false);
        out', failed' := (out + u.value.0)[z := count], u.value.1 + failed;
    }
  }

  /** A `process_*` loop over vals, given the outcome of each level's
      round: rounds are recorded in order, and the first level that cannot
      be settled ends the loop with its error. */
  function Run(vals: seq<Level>, steps: seq<Result<LevelOutcome>>, o: Oracles)
    : Result<(map<Level, nat>, map<JInv, int>)>
    requires |steps| == |vals|
  {
    if vals == [] then Ok((map[], map[]))
    else
      var n := |vals| - 1;
      match Run(vals[..n], steps[..n], o)
      case Err(e) => Err(e)
      case Ok(st) =>
        match steps[n]
        case Err(e) => Err(e)
        case Ok(outcome) => Ok(Record(st.0, st.1, vals[n], outcome, o))
  }

  /** The outcome of each level's round. */
  ghost function StepsOf(hyper: bool, d: int, vals: seq<Level>, cat: Catalogue, o: Oracles)
    : (r: seq<Result<LevelOutcome>>)
    requires d != 0
    ensures |r| == |vals|
    ensures forall i :: 0 <= i < |vals| ==> r[i] == Step(hyper, d, vals[i], cat, o)
  {
    seq(|vals|, i requires 0 <= i < |vals| => Step(hyper, d, vals[i], cat, o))
  }

  /** The loop of `process_hyperelliptic` (hyper) or of
      `process_non_hyperelliptic` (not hyper) over vals. */
  ghost function ProcessSpec(hyper: bool, d: int, vals: seq<Level>, cat: Catalogue, o: Oracles)
    : Result<(map<Level, nat>, map<JInv, int>)>
    requires d != 0
  {
    Run(vals, StepsOf(hyper, d, vals, cat, o), o)
  }

  /** An error on a prefix of the levels is the error of the whole loop. */
  lemma {:induction false} RunErrSticky(vals: seq<Level>, steps: seq<Result<LevelOutcome>>, i: nat, o: Oracles)
    requires |steps| == |vals| && i <= |vals|
    requires Run(vals[..i], steps[..i], o).Err?
    ensures Run(vals, steps, o) == Run(vals[..i], steps[..i], o)
    decreases |vals| - i
  {
    if i == |vals| {
      assert vals[..i] == vals && steps[..i] == steps;
    } else {
      var n := |vals| - 1;
      assert vals[..n][..i] == vals[..i];
      assert steps[..n][..i] == steps[..i];
      RunErrSticky(vals[..n], steps[..n], i, o);
    }
  }

  /** One more round of the loop: the error of the level, or its outcome
      recorded on top of the state so far. */
  lemma RunExtend(vals: seq<Level>, steps: seq<Result<LevelOutcome>>, i: nat, o: Oracles)
    requires |steps| == |vals| && i < |vals|
    requires Run(vals[..i], steps[..i], o).Ok?
    ensures steps[i].Err? ==> Run(vals[..i + 1], steps[..i + 1], o) == Err(steps[i].error)
    ensures steps[i].Ok? ==> (Run(vals[..i + 1], steps[..i + 1], o) ==
      Ok(Record(Run(vals[..i], steps[..i], o).value.0, Run(vals[..i], steps[..i], o).value.1, vals[i], steps[i].value, o)))
  {
    assert vals[..i + 1][..i] == vals[..i];
    assert steps[..i + 1][..i] == steps[..i];
    assert vals[..i + 1][i] == vals[i] && steps[..i + 1][i] == steps[i];
  }

  method ProcessLevels(hyper: bool, d: int, vals: seq<Level>, cat: Catalogue, o: Oracles)
    returns (r: Result<(map<Level, nat>, map<JInv, int>)>)
    requires d != 0
    ensures r == ProcessSpec(hyper, d, vals, cat, o)
  {
    ghost var steps := StepsOf(hyper, d, vals, cat, o);
    var out: map<Level, nat> := map[];
    var failed: map<JInv, int> := map[];
    for i := 0 to |vals|
      invariant Run(vals[..i], steps[..i], o) == Ok((out, failed))
    {
      RunExtend(vals, steps, i, o);
      var step;
      if hyper {
        step := HyperellipticLevel(d, vals[i], cat, o);
      } else {
        step := NonHyperellipticLevel(d, vals[i], cat, o);
      }
      assert step == steps[i];
      if step.Err? {
        RunErrSticky(vals, steps, i + 1, o);
        return Err(step.error);
      }
      out, failed := RecordLevel(out, failed, vals[i], step.value, o);
    }
    assert vals[..|vals|] == vals;
    assert steps[..|vals|] == steps;
    return Ok((out, failed));
  }

  /** `process_hyperelliptic(d, K_gen, vals)`. */
  method ProcessHyperelliptic(d: int, vals: seq<Level>, cat: Catalogue, o: Oracles)
    returns (r: Result<(map<Level, nat>, map<JInv, int>)>)
    requires d != 0
    ensures r == ProcessSpec(true, d, vals, cat, o)
  {
    r := ProcessLevels(true, d, vals, cat, o);
  }

  /** `process_non_hyperelliptic`: the levels other than 163, whose points
      are all CM and handled by the solver's last step. */
  ghost function ProcessNonHyperSpec(d: int, vals: seq<Level>, cat: Catalogue, o: Oracles)
    : (r: Result<(map<Level, nat>, map<JInv, int>)>)
    requires d != 0
    ensures 163 !in vals <==> r == Err(NotInList(163))
  {
    match RemoveFirst(vals, 163)
    case None => Err(NotInList(163))
    case Some(rest) =>
      var steps := StepsOf(false, d, rest, cat, o);
      RunFailsAtFirst(rest, steps, o);
      Run(rest, steps, o)
  }

  /** `process_non_hyperelliptic(d, K_gen, vals)`: works on a copy of vals
      with 163 removed (`vals` itself is a value here, so it cannot change). */
  method ProcessNonHyperelliptic(d: int, vals: seq<Level>, cat: Catalogue, o: Oracles)
    returns (r: Result<(map<Level, nat>, map<JInv, int>)>)
    requires d != 0
    ensures r == ProcessNonHyperSpec(d, vals, cat, o)
  {
    var rest := RemoveFirst(vals, 163);
    if rest.None? {
      return Err(NotInList(163));
    }
    r := ProcessLevels(false, d, rest.value, cat, o);
  }

  /** The loop succeeds exactly when every level's round does, and otherwise
      fails with the error of the first round that fails. */
  lemma {:induction false} RunFailsAtFirst(vals: seq<Level>, steps: seq<Result<LevelOutcome>>, o: Oracles)
    requires |steps| == |vals|
    ensures Run(vals, steps, o).Ok? <==> forall i :: 0 <= i < |steps| ==> steps[i].Ok?
    ensures Run(vals, steps, o).Err? ==>
      exists i :: 0 <= i < |steps| && steps[i] == Err(Run(vals, steps, o).error) &&
        forall j :: 0 <= j < i ==> steps[j].Ok?
  {
    if vals != [] {
      var n := |vals| - 1;
      var pre := steps[..n];
      RunFailsAtFirst(vals[..n], pre, o);
      assert forall i :: 0 <= i < n ==> pre[i] == steps[i];
    }
  }

  /** Every processed level z ends with its own count in `output_dict`: the
      unrecorded isogenies merged after it are proper multiples of later,
      hence larger, levels, so the levels must come in non-decreasing order
      (the solver passes them sorted); a level met twice has the same round
      both times. */
  lemma {:induction false} RunRecordsEachLevel(vals: seq<Level>, steps: seq<Result<LevelOutcome>>, o: Oracles)
    requires |steps| == |vals| && NonDecreasing(vals)
    requires forall i, j :: 0 <= i < j < |vals| && vals[i] == vals[j] ==> steps[i] == steps[j]
    requires Run(vals, steps, o).Ok?
    ensures forall i :: 0 <= i < |vals| ==>
      steps[i].Ok? && vals[i] in Run(vals, steps, o).value.0 &&
      Run(vals, steps, o).value.0[vals[i]] == OutcomeCount(steps[i].value)
  {
    if vals != [] {
      var n := |vals| - 1;
      var z := vals[n];
      var pre := steps[..n];
      assert forall i :: 0 <= i < n ==> vals[..n][i] == vals[i] && pre[i] == steps[i];
      assert NonDecreasing(vals[..n]);
      RunRecordsEachLevel(vals[..n], pre, o);
      var st := Run(vals[..n], pre, o).value;
      var outcome := steps[n].value;
      var out := Run(vals, steps, o).value.0;
      forall i | 0 <= i < n && vals[i] != z
        ensures vals[i] in out && out[vals[i]] == st.0[vals[i]]
      {
        assert vals[i] < z;
        if outcome.WithPoints? {
          UnrecordedSpec(outcome.jInvs, o, Some(z), false);
        }
      }
    }
  }

  // ---------------------------------------------------------------------
  // Genus-one levels: the Magma `EllipticCount` answer
  // ---------------------------------------------------------------------

  /** `dict(pairs)`: a later pair for a key replaces an earlier one. */
  function DictOf(pairs: seq<(Level, seq<JInv>)>): map<Level, seq<JInv>> {
    if pairs == [] then map[]
    else
      var n := |pairs| - 1;
      DictOf(pairs[..n])[pairs[n].0 := pairs[n].1]
  }

  /** The keys of `dict(pairs)` in the order a Python dict keeps them: by
      first occurrence, each once. */
  function DictKeys(pairs: seq<(Level, seq<JInv>)>): (r: seq<Level>)
    ensures forall k :: k in r <==> k in DictOf(pairs)
    ensures forall i, j :: 0 <= i < j < |r| ==> r[i] != r[j]
  {
    if pairs == [] then []
    else
      var n := |pairs| - 1;
      var rest := DictKeys(pairs[..n]);
      if pairs[n].0 in rest then rest else rest + [pairs[n].0]
  }

  /** `dict(pairs)` holds, under each key, the value of the last pair with
      that key. */
  lemma {:induction false} DictOfLastWins(pairs: seq<(Level, seq<JInv>)>, i: nat)
    requires i < |pairs|
    requires forall j :: i < j < |pairs| ==> pairs[j].0 != pairs[i].0
    ensures pairs[i].0 in DictOf(pairs) && DictOf(pairs)[pairs[i].0] == pairs[i].1
  {
    var n := |pairs| - 1;
    if i < n {
      assert forall j :: i < j < n ==> pairs[..n][j] == pairs[j];
      DictOfLastWins(pairs[..n], i);
    }
  }

  /** The result of `unrecorded_isogenies` in the round of each genus-one
      level of keys, in key order. */
  function Rounds(keys: seq<Level>, dict: map<Level, seq<JInv>>, o: Oracles)
    : (r: seq<(map<Level, nat>, map<JInv, int>)>)
    requires forall k :: k in keys ==> k in dict
    ensures |r| == |keys|
    ensures forall i :: 0 <= i < |keys| ==> r[i] == Unrecorded(dict[keys[i]], o, Some(keys[i]), false)
  {
    seq(|keys|, i requires 0 <= i < |keys| => Unrecorded(dict[keys[i]], o, Some(keys[i]), false))
  }

  /** The merges of the genus-one loop over its rounds: the newer count of
      a degree replaces the older (`{**old, **new}`), the older failure of
      a j-invariant stays (`{**new, **failed_dict}`). */
  function MergeRounds(rounds: seq<(map<Level, nat>, map<JInv, int>)>): (map<Level, nat>, map<JInv, int>) {
    if rounds == [] then (map[], map[])
    else
      var n := |rounds| - 1;
      var acc := MergeRounds(rounds[..n]);
      (acc.0 + rounds[n].0, rounds[n].1 + acc.1)
  }

  /** One more round of the genus-one loop. */
  lemma MergeRoundsStep(rounds: seq<(map<Level, nat>, map<JInv, int>)>, i: nat)
    requires i < |rounds|
    ensures MergeRounds(rounds[..i + 1]) ==
      (MergeRounds(rounds[..i]).0 + rounds[i].0, rounds[i].1 + MergeRounds(rounds[..i]).1)
  {
    assert rounds[..i + 1][..i] == rounds[..i];
  }

  /** A failure is kept from the first round that records it. */
  lemma {:induction false} MergeFailures(rounds: seq<(map<Level, nat>, map<JInv, int>)>)
    ensures forall j :: j in MergeRounds(rounds).1 <==> exists i :: 0 <= i < |rounds| && j in rounds[i].1
    ensures forall j, i :: (0 <= i < |rounds| && j in rounds[i].1 &&
      (forall h :: 0 <= h < i ==> j !in rounds[h].1)) ==> MergeRounds(rounds).1[j] == rounds[i].1[j]
  {
    if rounds != [] {
      var n := |rounds| - 1;
      var pre := rounds[..n];
      MergeFailures(pre);
      assert forall i :: 0 <= i < n ==> pre[i] == rounds[i];
      var acc := MergeRounds(pre).1;
      var f := MergeRounds(rounds).1;
      forall j, i | 0 <= i < |rounds| && j in rounds[i].1 && (forall h :: 0 <= h < i ==> j !in rounds[h].1)
        ensures f[j] == rounds[i].1[j]
      {
        if i < n {
          assert j in pre[i].1;
        } else {
          assert forall h :: 0 <= h < n ==> j !in pre[h].1;
        }
      }
    }
  }

  /** A count is kept from the last round that records it. */
  lemma {:induction false} MergeCounts(rounds: seq<(map<Level, nat>, map<JInv, int>)>)
    ensures forall a :: a in MergeRounds(rounds).0 <==> exists i :: 0 <= i < |rounds| && a in rounds[i].0
    ensures forall a, i :: (0 <= i < |rounds| && a in rounds[i].0 &&
      (forall h :: i < h < |rounds| ==> a !in rounds[h].0)) ==> MergeRounds(rounds).0[a] == rounds[i].0[a]
  {
    if rounds != [] {
      var n := |rounds| - 1;
      var pre := rounds[..n];
      MergeCounts(pre);
      assert forall i :: 0 <= i < n ==> pre[i] == rounds[i];
      forall a, i | 0 <= i < |rounds| && a in rounds[i].0 && (forall h :: i < h < |rounds| ==> a !in rounds[h].0)
        ensures MergeRounds(rounds).0[a] == rounds[i].0[a]
      {
        if i < n {
          assert a in pre[i].0;
          assert forall h :: i < h < n ==> a !in pre[h].0;
        }
      }
    }
  }

  /** `{k: len(dict[k]) for k in dict}`. */
  function Lengths(dict: map<Level, seq<JInv>>): (r: map<Level, nat>)
    ensures forall k :: k in r <==> k in dict
    ensures forall k :: k in r ==> r[k] == |dict[k]|
  {
    map k | k in dict.Keys :: |dict[k]|
  }

  /** The class computation of j failed while the genus-one level k was
      processed. */
  predicate FailsInRound(j: JInv, dict: map<Level, seq<JInv>>, k: Level, o: Oracles) {
    k in dict && j in dict[k] && IsogenyClassViaSage(j, o).None?
  }

  /** The round of the genus-one level k reveals an isogeny of degree a: a
      proper multiple of k in an isogeny matrix of a class computed there. */
  predicate Reveals(a: Level, dict: map<Level, seq<JInv>>, k: Level, o: Oracles) {
    k in dict && Occurs(a, Successes(dict[k], o)) && Wanted(a, Some(k), false)
  }

  /** The number of distinct j-invariants admitting a in the round of k. */
  function RevealedCount(a: Level, dict: map<Level, seq<JInv>>, k: Level, o: Oracles): nat
    requires k in dict
  {
    |Admitting(Successes(dict[k], o), a)|
  }

  /** `elliptic_count_dict` and the failures of the genus-one stage. */
  function EllipticCounts(o: Oracles): (map<Level, nat>, map<JInv, int>) {
    var pairs := o.ellipticJInvs;
    var dict := DictOf(pairs);
    var keys := DictKeys(pairs);
    assert forall k :: k in keys ==> k in dict;
    var acc := MergeRounds(Rounds(keys, dict, o));
    (Lengths(dict) + acc.0, acc.1)
  }

  /** One genus-one round in the terms of the stage: the failures are the
      j of that level whose class computation failed, recorded with the
      level; the counts are the degrees the round reveals. */
  lemma RoundMeaning(dict: map<Level, seq<JInv>>, k: Level, o: Oracles)
    requires k in dict
    ensures var u := Unrecorded(dict[k], o, Some(k), false);
      && (forall j :: j in u.1 <==> FailsInRound(j, dict, k, o))
      && (forall j :: j in u.1 ==> u.1[j] == k)
      && (forall a :: a in u.0 <==> Reveals(a, dict, k, o))
      && (forall a :: a in u.0 ==> u.0[a] == RevealedCount(a, dict, k, o))
  {
    UnrecordedSpec(dict[k], o, Some(k), false);
  }

  /** What the genus-one stage promises. A j-invariant is a failure exactly
      when its class computation failed in the round of some level, and it
      is recorded with the first such level in the order of the Magma keys.
      The counts hold every Magma level and every degree some round
      reveals. A level no round reveals keeps its number of j-invariants,
      and a revealed degree takes the count of the last round revealing it. */
  lemma EllipticStage(o: Oracles)
    ensures var dict := DictOf(o.ellipticJInvs);
      var keys := DictKeys(o.ellipticJInvs);
      StagePromise(keys, dict, o, EllipticCounts(o).0, EllipticCounts(o).1)
  {
    var dict := DictOf(o.ellipticJInvs);
    var keys := DictKeys(o.ellipticJInvs);
    assert forall k :: k in keys ==> k in dict;
    var acc := MergeRounds(Rounds(keys, dict, o));
    assert EllipticCounts(o) == (Lengths(dict) + acc.0, acc.1);
    StageOver(keys, dict, o);
  }

  /** The promise of the genus-one stage, for the Magma levels keys (in
      their dictionary order) with their j-invariants dict. */
  ghost predicate StagePromise(keys: seq<Level>, dict: map<Level, seq<JInv>>, o: Oracles,
                               counts: map<Level, nat>, failed: map<JInv, int>)
  {
    && (forall j :: j in failed <==> exists k :: FailsInRound(j, dict, k, o))
    && (forall j, i :: (0 <= i < |keys| && FailsInRound(j, dict, keys[i], o) &&
         (forall h :: 0 <= h < i ==> !FailsInRound(j, dict, keys[h], o))) ==> j in failed && failed[j] == keys[i])
    && (forall a :: a in counts <==> a in dict || exists k :: Reveals(a, dict, k, o))
    && (forall k :: (k in dict && forall k' :: !Reveals(k, dict, k', o)) ==> k in counts && counts[k] == |dict[k]|)
    && (forall a, i :: (0 <= i < |keys| && Reveals(a, dict, keys[i], o) &&
         (forall h :: i < h < |keys| ==> !Reveals(a, dict, keys[h], o))) ==> a in counts && counts[a] == RevealedCount(a, dict, keys[i], o))
  }

  /** The stage over any levels and j-invariants. */
  lemma StageOver(keys: seq<Level>, dict: map<Level, seq<JInv>>, o: Oracles)
    requires forall k :: k in keys <==> k in dict
    ensures var acc := MergeRounds(Rounds(keys, dict, o));
      StagePromise(keys, dict, o, Lengths(dict) + acc.0, acc.1)
  {
    var acc := MergeRounds(Rounds(keys, dict, o));
    FailuresOver(keys, dict, o);
    CountsOver(keys, dict, o);
    var counts := Lengths(dict) + acc.0;
    forall k | k in dict && forall k' :: !Reveals(k, dict, k', o)
      ensures k in counts && counts[k] == |dict[k]|
    {
      assert k !in acc.0;
    }
    forall a, i | 0 <= i < |keys| && Reveals(a, dict, keys[i], o) &&
      (forall h :: i < h < |keys| ==> !Reveals(a, dict, keys[h], o))
      ensures a in counts && counts[a] == RevealedCount(a, dict, keys[i], o)
    {
      assert a in acc.0;
    }
  }

  /** The failures of the genus-one loop over the levels keys. */
  lemma FailuresOver(keys: seq<Level>, dict: map<Level, seq<JInv>>, o: Oracles)
    requires forall k :: k in keys <==> k in dict
    ensures var failed := MergeRounds(Rounds(keys, dict, o)).1;
      && (forall j :: j in failed <==> exists k :: FailsInRound(j, dict, k, o))
      && (forall j, i :: (0 <= i < |keys| && FailsInRound(j, dict, keys[i], o) &&
           (forall h :: 0 <= h < i ==> !FailsInRound(j, dict, keys[h], o))) ==> failed[j] == keys[i])
  {
    var rounds := Rounds(keys, dict, o);
    MergeFailures(rounds);
    forall i | 0 <= i < |keys|
      ensures forall j :: j in rounds[i].1 <==> FailsInRound(j, dict, keys[i], o)
      ensures forall j :: j in rounds[i].1 ==> rounds[i].1[j] == keys[i]
    {
      RoundMeaning(dict, keys[i], o);
    }
    forall j | exists k :: FailsInRound(j, dict, k, o)
      ensures j in MergeRounds(rounds).1
    {
      var k :| FailsInRound(j, dict, k, o);
      var i :| 0 <= i < |keys| && keys[i] == k;
      assert j in rounds[i].1;
    }
  }

  /** The counts the genus-one loop adds: the revealed degrees, each with
      the count of the last round revealing it. */
  lemma CountsOver(keys: seq<Level>, dict: map<Level, seq<JInv>>, o: Oracles)
    requires forall k :: k in keys <==> k in dict
    ensures var counts := MergeRounds(Rounds(keys, dict, o)).0;
      && (forall a :: a in counts <==> exists k :: Reveals(a, dict, k, o))
      && (forall a, i :: (0 <= i < |keys| && Reveals(a, dict, keys[i], o) &&
           (forall h :: i < h < |keys| ==> !Reveals(a, dict, keys[h], o))) ==> counts[a] == RevealedCount(a, dict, keys[i], o))
  {
    var rounds := Rounds(keys, dict, o);
    MergeCounts(rounds);
    forall i | 0 <= i < |keys|
      ensures forall a :: a in rounds[i].0 <==> Reveals(a, dict, keys[i], o)
      ensures forall a :: a in rounds[i].0 ==> rounds[i].0[a] == RevealedCount(a, dict, keys[i], o)
    {
      RoundMeaning(dict, keys[i], o);
    }
    forall a | exists k :: Reveals(a, dict, k, o)
      ensures a in MergeRounds(rounds).0
    {
      var k :| Reveals(a, dict, k, o);
      var i :| 0 <= i < |keys| && keys[i] == k;
      assert a in rounds[i].0;
    }
  }

  /** The genus-one stage of `quadratic_kenku_solver`. */
  method ProcessElliptic(o: Oracles) returns (counts: map<Level, nat>, failed: map<JInv, int>)
    ensures (counts, failed) == EllipticCounts(o)
  {
    var pairs := o.ellipticJInvs;
    var dict: map<Level, seq<JInv>> := map[];
    var keys: seq<Level> := [];
    for i := 0 to |pairs|
      invariant dict == DictOf(pairs[..i])
      invariant keys == DictKeys(pairs[..i])
    {
      assert pairs[..i + 1][..i] == pairs[..i];
      if pairs[i].0 !in dict {
        keys := keys + [pairs[i].0];
      }
      dict := dict[pairs[i].0 := pairs[i].1];
    }
    assert pairs[..|pairs|] == pairs;
    ghost var rounds := Rounds(keys, dict, o);
    var unrecorded: map<Level, nat> := map[];
    failed := map[];
    for i := 0 to |keys|
      invariant (unrecorded, failed) == MergeRounds(rounds[..i])
    {
      MergeRoundsStep(rounds, i);
      var u := UnrecordedIsogenies(dict[keys[i]], o, Some(keys[i]), false);
      assert u.value == rounds[i];
      unrecorded, failed := unrecorded + u.value.0, u.value.1 + failed;
    }
    assert rounds[..|keys|] == rounds;
    counts := Lengths(dict) + unrecorded;
  }

  // ---------------------------------------------------------------------
  // `quadratic_kenku_solver(d)`
  // ---------------------------------------------------------------------

  /** The list the solver works through: Algorithm 2.2's list for the
      zero-rank levels, extended by the large possible isogeny primes, sorted. */
  ghost function SolverLevels(zeroRank: seq<Level>, large: seq<Level>): seq<Level> {
    Sorted(MinimallyFiniteList(zeroRank) + large)
  }

  /** `infinite_dict`: `+Infinity` for the genus-one levels missing from levels. */
  function InfiniteDict(levels: seq<Level>): (r: map<Level, Count>)
    ensures forall N :: N in r <==> N in GenusOneList && N !in levels
    ensures forall N :: N in r ==> r[N] == Inf
  {
    map N | N in GenusOneList && N !in levels :: Inf
  }

  lemma LpipKeysNonZero(d: int)
    requires d in Lpip
    ensures d != 0
  {
  }

  /** The end of the solver: the five count dictionaries summed with zero
      counts dropped, and the failures of the stages merged so that the
      earliest stage wins. */
  function Assemble(levels: seq<Level>, ell: (map<Level, nat>, map<JInv, int>),
                    hyp: (map<Level, nat>, map<JInv, int>), non: (map<Level, nat>, map<JInv, int>),
                    cm: (map<Level, nat>, map<JInv, int>)): (r: (map<Level, Count>, map<JInv, int>))
    ensures forall k :: k in r.0 ==> r.0[k] != Fin(0)
    ensures forall j :: j in r.1 <==> j in ell.1 || j in hyp.1 || j in non.1 || j in cm.1
    ensures forall j :: j in ell.1 ==> r.1[j] == ell.1[j]
    ensures forall j :: j in hyp.1 && j !in ell.1 ==> r.1[j] == hyp.1[j]
    ensures forall j :: j in non.1 && j !in ell.1 && j !in hyp.1 ==> r.1[j] == non.1[j]
    ensures forall j :: j in cm.1 && j !in ell.1 && j !in hyp.1 && j !in non.1 ==> r.1[j] == cm.1[j]
  {
    var dicts := [InfiniteDict(levels), Counts(ell.0), Counts(hyp.0), Counts(non.0), Counts(cm.0)];
    (DropZeros(FoldSum(dicts, |dicts|)), cm.1 + (non.1 + (hyp.1 + ell.1)))
  }

  /** The solver once its list of levels is known. */
  ghost function Stages(d: int, levels: seq<Level>, cat: Catalogue, o: Oracles)
    : Result<(map<Level, Count>, map<JInv, int>)>
    requires d != 0
  {
    match ProcessSpec(true, d, InBucket(levels, Hyperelliptic), cat, o)
    case Err(e) => Err(e)
    case Ok(hyp) =>
      match ProcessNonHyperSpec(d, InBucket(levels, NonHyperelliptic), cat, o)
      case Err(e) => Err(e)
      case Ok(non) =>
        Ok(Assemble(levels, EllipticCounts(o), hyp, non, Unrecorded(o.cmJInvs, o, None, true)))
  }

  /** The run of `quadratic_kenku_solver(d)` on the rank data, the
      catalogue and the oracle answers: an error, or the answer dictionary
      with the failures. The missing large-prime data is reported before
      anything else is looked at. */
  ghost function Solve(d: int, rankData: map<int, seq<Level>>, cat: Catalogue, o: Oracles)
    : (r: Result<(map<Level, Count>, map<JInv, int>)>)
    ensures d !in Lpip ==> r == Err(NoLargePrimeData(d))
    ensures d in Lpip && d !in rankData ==> r == Err(KeyError(d))
  {
    if d !in Lpip then Err(NoLargePrimeData(d))
    else if d !in rankData then Err(KeyError(d))
    else
      LpipKeysNonZero(d);
      Stages(d, SolverLevels(rankData[d], Lpip[d]), cat, o)
  }

  method RunStages(d: int, levels: seq<Level>, cat: Catalogue, o: Oracles)
    returns (r: Result<(map<Level, Count>, map<JInv, int>)>)
    requires d != 0
    ensures r == Stages(d, levels, cat, o)
  {
    var infinite := InfiniteDict(levels);
    var elliptic, hyperelliptic, other := SplitBuckets(levels);
    var ellCounts, failed := ProcessElliptic(o);
    var hyp := ProcessHyperelliptic(d, hyperelliptic, cat, o);
    if hyp.Err? {
      return Err(hyp.error);
    }
    failed := hyp.value.1 + failed;
    var non := ProcessNonHyperelliptic(d, other, cat, o);
    if non.Err? {
      return Err(non.error);
    }
    failed := non.value.1 + failed;
    var cm := UnrecordedIsogenies(o.cmJInvs, o, None, true);
    failed := cm.value.1 + failed;
    var ans := ReduceAll([infinite, Counts(ellCounts), Counts(hyp.value.0), Counts(non.value.0), Counts(cm.value.0)]);
    r := Ok((DropZeros(ans), failed));
  }

  /** `quadratic_kenku_solver(d)`. */
  method QuadraticKenkuSolver(d: int, rankData: map<int, seq<Level>>, cat: Catalogue, o: Oracles)
    returns (r: Result<(map<Level, Count>, map<JInv, int>)>)
    ensures r == Solve(d, rankData, cat, o)
  {
    if d !in Lpip {
      return Err(NoLargePrimeData(d));
    }
    LpipKeysNonZero(d);
    var mf := MinimallyFiniteFor(d, rankData);
    if mf.Err? {
      return Err(mf.error);
    }
    var levels := Sorted(mf.value + Lpip[d]);
    assert levels == SolverLevels(rankData[d], Lpip[d]);
    r := RunStages(d, levels, cat, o);
    assert Solve(d, rankData, cat, o) == Stages(d, levels, cat, o);
  }

  // ---------------------------------------------------------------------
  // What the solver promises
  // ---------------------------------------------------------------------

  /** `process_hyperelliptic` and `process_non_hyperelliptic` (after 163 is
      removed) record, for every level z they were given in non-decreasing
      order, the count z's own round found. */
  lemma ProcessRecordsEachLevel(hyper: bool, d: int, vals: seq<Level>, cat: Catalogue, o: Oracles)
    requires d != 0 && NonDecreasing(vals)
    requires ProcessSpec(hyper, d, vals, cat, o).Ok?
    ensures forall i :: 0 <= i < |vals| ==>
      Step(hyper, d, vals[i], cat, o).Ok? && vals[i] in ProcessSpec(hyper, d, vals, cat, o).value.0 &&
      ProcessSpec(hyper, d, vals, cat, o).value.0[vals[i]] == OutcomeCount(Step(hyper, d, vals[i], cat, o).value)
  {
    RunRecordsEachLevel(vals, StepsOf(hyper, d, vals, cat, o), o);
  }

  /** Each level z of the hyperelliptic bucket, and of the
      non-hyperelliptic bucket except 163, ends in its stage's dictionary
      with the count of z's own round. The buckets keep the order of the
      sorted level list, which is what makes this hold. */
  lemma StagesRecordEachLevel(d: int, levels: seq<Level>, cat: Catalogue, o: Oracles)
    requires d != 0 && NonDecreasing(levels)
    requires Stages(d, levels, cat, o).Ok?
    ensures var hyp := ProcessSpec(true, d, InBucket(levels, Hyperelliptic), cat, o);
      hyp.Ok? && forall z :: z in levels && BucketOf(z) == Hyperelliptic ==>
        Step(true, d, z, cat, o).Ok? && z in hyp.value.0 && hyp.value.0[z] == OutcomeCount(Step(true, d, z, cat, o).value)
    ensures var non := ProcessNonHyperSpec(d, InBucket(levels, NonHyperelliptic), cat, o);
      non.Ok? && forall z :: z in levels && BucketOf(z) == NonHyperelliptic && z != 163 ==>
        Step(false, d, z, cat, o).Ok? && z in non.value.0 && non.value.0[z] == OutcomeCount(Step(false, d, z, cat, o).value)
  {
    var hypVals := InBucket(levels, Hyperelliptic);
    var nonVals := InBucket(levels, NonHyperelliptic);
    assert ProcessSpec(true, d, hypVals, cat, o).Ok?;
    assert ProcessNonHyperSpec(d, nonVals, cat, o).Ok?;
    ProcessRecordsEachLevel(true, d, hypVals, cat, o);
    forall z | z in levels && BucketOf(z) == Hyperelliptic
      ensures z in hypVals
    {
    }
    var rest := RemoveFirst(nonVals, 163).value;
    RemoveFirstNonDecreasing(nonVals, 163);
    assert ProcessNonHyperSpec(d, nonVals, cat, o) == ProcessSpec(false, d, rest, cat, o);
    ProcessRecordsEachLevel(false, d, rest, cat, o);
    forall z | z in levels && BucketOf(z) == NonHyperelliptic && z != 163
      ensures z in rest
    {
      assert z in multiset(nonVals);
      assert z in multiset(rest);
    }
  }

  /** For a successful run of the solver, every hyperelliptic level and
      every non-hyperelliptic level other than 163 of its sorted list ends
      with the count of its own round. */
  lemma SolveRecordsEachLevel(d: int, rankData: map<int, seq<Level>>, cat: Catalogue, o: Oracles)
    requires Solve(d, rankData, cat, o).Ok?
    ensures d in Lpip && d in rankData && d != 0
    ensures var levels := SolverLevels(rankData[d], Lpip[d]);
      var hyp := ProcessSpec(true, d, InBucket(levels, Hyperelliptic), cat, o);
      hyp.Ok? && forall z :: z in levels && BucketOf(z) == Hyperelliptic ==>
        Step(true, d, z, cat, o).Ok? && z in hyp.value.0 && hyp.value.0[z] == OutcomeCount(Step(true, d, z, cat, o).value)
    ensures var levels := SolverLevels(rankData[d], Lpip[d]);
      var non := ProcessNonHyperSpec(d, InBucket(levels, NonHyperelliptic), cat, o);
      non.Ok? && forall z :: z in levels && BucketOf(z) == NonHyperelliptic && z != 163 ==>
        Step(false, d, z, cat, o).Ok? && z in non.value.0 && non.value.0[z] == OutcomeCount(Step(false, d, z, cat, o).value)
  {
    LpipKeysNonZero(d);
    var levels := SolverLevels(rankData[d], Lpip[d]);
    assert Solve(d, rankData, cat, o) == Stages(d, levels, cat, o);
    StagesRecordEachLevel(d, levels, cat, o);
  }

  /** The round of level i put j-invariant j through a class computation
      that failed. */
  ghost predicate FailsAt(steps: seq<Result<LevelOutcome>>, i: int, j: JInv, o: Oracles)
    requires 0 <= i < |steps|
  {
    steps[i].Ok? && steps[i].value.WithPoints? && j in steps[i].value.jInvs && IsogenyClassViaSage(j, o).None?
  }

  /** The failures of a `process_*` loop are the j-invariants whose class
      computation failed in some round, each recorded with the level of the
      first such round (`{**new, **failed_dict}` keeps the older entry). */
  lemma {:induction false} RunFailures(vals: seq<Level>, steps: seq<Result<LevelOutcome>>, o: Oracles)
    requires |steps| == |vals|
    requires Run(vals, steps, o).Ok?
    ensures forall j :: j in Run(vals, steps, o).value.1 <==> exists i :: 0 <= i < |vals| && FailsAt(steps, i, j, o)
    ensures forall j :: j in Run(vals, steps, o).value.1 ==>
      exists i :: (0 <= i < |vals| && FailsAt(steps, i, j, o) && Run(vals, steps, o).value.1[j] == vals[i] &&
        forall i' :: 0 <= i' < i ==> !FailsAt(steps, i', j, o))
  {
    if vals != [] {
      var n := |vals| - 1;
      var pre := steps[..n];
      RunFailures(vals[..n], pre, o);
      var old_ := Run(vals[..n], pre, o).value.1;
      var failed := Run(vals, steps, o).value.1;
      assert forall i, j :: 0 <= i < n ==> (FailsAt(pre, i, j, o) <==> FailsAt(steps, i, j, o));
      assert forall i :: 0 <= i < n ==> vals[..n][i] == vals[i];
      var outcome := steps[n].value;
      if outcome.WithPoints? {
        UnrecordedSpec(outcome.jInvs, o, Some(vals[n]), false);
      }
      forall j | j in failed
        ensures exists i :: (0 <= i < |vals| && FailsAt(steps, i, j, o) && failed[j] == vals[i] &&
          forall i' :: 0 <= i' < i ==> !FailsAt(steps, i', j, o))
      {
        if j !in old_ {
          assert FailsAt(steps, n, j, o);
        }
      }
    }
  }

  /** The answer is the keywise sum of the count dictionaries, with the
      zero sums dropped. */
  lemma FinalMerge(ds: seq<map<Level, Count>>)
    ensures forall k :: k in DropZeros(FoldSum(ds, |ds|)) <==>
      (exists i :: 0 <= i < |ds| && k in ds[i]) && Total(ds, |ds|, k) != Fin(0)
    ensures forall k :: k in DropZeros(FoldSum(ds, |ds|)) ==> DropZeros(FoldSum(ds, |ds|))[k] == Total(ds, |ds|, k)
  {
    FoldSumIsKeywiseSum(ds, |ds|);
  }

  /** In the answer, `+Infinity` stands exactly under the genus-one levels
      that are missing from the list of levels. */
  lemma AnswerInfinite(levels: seq<Level>, ell: (map<Level, nat>, map<JInv, int>),
                       hyp: (map<Level, nat>, map<JInv, int>), non: (map<Level, nat>, map<JInv, int>),
                       cm: (map<Level, nat>, map<JInv, int>))
    ensures forall N :: (N in Assemble(levels, ell, hyp, non, cm).0 && Assemble(levels, ell, hyp, non, cm).0[N] == Inf) <==>
      N in GenusOneList && N !in levels
  {
    var dicts := [InfiniteDict(levels), Counts(ell.0), Counts(hyp.0), Counts(non.0), Counts(cm.0)];
    FinalMerge(dicts);
    var ans := Assemble(levels, ell, hyp, non, cm).0;
    assert ans == DropZeros(FoldSum(dicts, |dicts|));
    forall N
      ensures (N in ans && ans[N] == Inf) <==> N in GenusOneList && N !in levels
    {
      TotalInf(dicts, 5, N);
      assert Get(dicts[0], N) == Inf <==> N in GenusOneList && N !in levels;
      assert Get(dicts[1], N) != Inf && Get(dicts[2], N) != Inf;
      assert Get(dicts[3], N) != Inf && Get(dicts[4], N) != Inf;
      if N in GenusOneList && N !in levels {
        assert N in dicts[0];
      }
    }
  }

  /** The large possible isogeny primes are never genus-one levels. */
  lemma LpipOutsideGenusOne(d: int)
    requires d in Lpip
    ensures forall x :: x in Lpip[d] ==> x !in GenusOneList
  {
  }

  /** No product b*p of a genus-one level and a prime below 20 is itself a
      genus-one level. */
  lemma GenusOneNotProduct()
    ensures forall b, p :: b in GenusOneList && p in SmallPrimes ==> Product(b, p) !in GenusOneList
  {
    forall b, p | b in GenusOneList && p in SmallPrimes
      ensures Product(b, p) !in GenusOneList
    {
      GenusOneNotMultiple(b, p);
    }
  }

  lemma GenusOneNotMultiple(b: Level, p: Level)
    requires b in GenusOneList && p in SmallPrimes
    ensures b * p !in GenusOneList
  {
    GenusOneMembers();
    assert b == 11 || b == 14 || b == 15 || b == 17 || b == 19 || b == 20 || b == 21 || b == 24 ||
      b == 27 || b == 32 || b == 36 || b == 49;
    if p == 2 {
    } else if p == 3 {
    } else if p == 5 {
    } else if p == 7 {
    } else if p == 11 {
    } else if p == 13 {
    } else if p == 17 {
    } else {
      assert p == 19;
    }
  }

  /** The genus-one levels, one by one. */
  lemma GenusOneMembers()
    ensures forall x :: x in GenusOneList <==> (x == 11 || x == 14 || x == 15 || x == 17 || x == 19 || x == 20 ||
      x == 21 || x == 24 || x == 27 || x == 32 || x == 36 || x == 49)
  {
  }

  /** A genus-one level is in Algorithm 2.2's list exactly when it has rank 0. */
  lemma MinimallyFiniteGenusOne(zeroRank: seq<Level>)
    ensures forall N :: N in GenusOneList ==> (N in MinimallyFiniteList(zeroRank) <==> N in zeroRank)
  {
    var base := Base(zeroRank);
    var extras := Minimal(Candidates(zeroRank));
    assert forall N :: N in MinimallyFiniteList(zeroRank) <==> N in base || N in extras;
    BaseGenusOne(zeroRank);
    ExtrasNotGenusOne(zeroRank);
  }

  lemma BaseGenusOne(zeroRank: seq<Level>)
    ensures forall N :: N in GenusOneList ==> (N in Base(zeroRank) <==> N in zeroRank)
  {
    forall N | N in GenusOneList
      ensures N !in Amf2
    {
      GenusOneMembers();
    }
  }

  lemma ExtrasNotGenusOne(zeroRank: seq<Level>)
    ensures forall N :: N in GenusOneList ==> N !in Minimal(Candidates(zeroRank))
  {
    forall N | N in GenusOneList && N in Minimal(Candidates(zeroRank))
      ensures false
    {
      MinimallyFiniteExtras(zeroRank, N);
      var b, p :| b in PositiveRankLevels(zeroRank) && p in SmallPrimes && N == Product(b, p);
      GenusOneNotMultiple(b, p);
    }
  }

  /** A genus-one level is in the solver's list exactly when it has rank 0. */
  lemma GenusOneInLevels(zeroRank: seq<Level>, large: seq<Level>)
    requires forall x :: x in large ==> x !in GenusOneList
    ensures forall N :: N in GenusOneList ==> (N in SolverLevels(zeroRank, large) <==> N in zeroRank)
  {
    SortedMembers(MinimallyFiniteList(zeroRank) + large);
    MinimallyFiniteGenusOne(zeroRank);
  }

  /** `quadratic_kenku_solver(d)` answers `+Infinity` exactly for the
      genus-one levels whose curve has positive rank over Q(sqrt(d)). */
  lemma SolveInfinity(d: int, rankData: map<int, seq<Level>>, cat: Catalogue, o: Oracles)
    requires Solve(d, rankData, cat, o).Ok?
    ensures d in Lpip && d in rankData
    ensures forall N :: (N in Solve(d, rankData, cat, o).value.0 && Solve(d, rankData, cat, o).value.0[N] == Inf) <==>
      N in GenusOneList && N !in rankData[d]
  {
    LpipKeysNonZero(d);
    var levels := SolverLevels(rankData[d], Lpip[d]);
    LpipOutsideGenusOne(d);
    GenusOneInLevels(rankData[d], Lpip[d]);
    var hyp := ProcessSpec(true, d, InBucket(levels, Hyperelliptic), cat, o).value;
    var non := ProcessNonHyperSpec(d, InBucket(levels, NonHyperelliptic), cat, o).value;
    AnswerInfinite(levels, EllipticCounts(o), hyp, non, Unrecorded(o.cmJInvs, o, None, true));
  }

  /** A failing round of either loop reports a missing catalogue key or an
      unimplemented case at one of the levels it was given. */
  lemma RunStepErrors(hyper: bool, d: int, vals: seq<Level>, cat: Catalogue, o: Oracles)
    requires d != 0
    requires ProcessSpec(hyper, d, vals, cat, o).Err?
    ensures exists z :: z in vals && (ProcessSpec(hyper, d, vals, cat, o).error == KeyError(z) ||
                                      ProcessSpec(hyper, d, vals, cat, o).error == NotImplemented(z))
  {
    var steps := StepsOf(hyper, d, vals, cat, o);
    RunFailsAtFirst(vals, steps, o);
    var i :| 0 <= i < |steps| && steps[i] == Err(Run(vals, steps, o).error) &&
      forall j :: 0 <= j < i ==> steps[j].Ok?;
    assert vals[i] in vals;
  }

  /** 163 is always among the solver's levels, in the non-hyperelliptic
      bucket, so `list.remove(163)` never fails there. */
  lemma LevelsHold163(zeroRank: seq<Level>, large: seq<Level>)
    ensures 163 in InBucket(SolverLevels(zeroRank, large), NonHyperelliptic)
  {
    var levels := SolverLevels(zeroRank, large);
    SortedMembers(MinimallyFiniteList(zeroRank) + large);
    assert 163 in Base(zeroRank);
    assert 163 in MinimallyFiniteList(zeroRank);
    assert 163 in levels;
    Bucket163();
  }

  lemma Bucket163()
    ensures BucketOf(163) == NonHyperelliptic
  {
    GenusOneMembers();
    assert 163 !in GenusOneList;
  }

  /** The only errors the solver raises: no large-prime data for d, no rank
      data for d, or a missing catalogue entry or an unimplemented case at
      one of its levels; never the `list.remove` or assertion errors. */
  lemma SolveErrors(d: int, rankData: map<int, seq<Level>>, cat: Catalogue, o: Oracles)
    requires Solve(d, rankData, cat, o).Err?
    ensures Solve(d, rankData, cat, o).error == NoLargePrimeData(d) <==> d !in Lpip
    ensures Solve(d, rankData, cat, o).error == KeyError(d) && d !in rankData <==> d in Lpip && d !in rankData
    ensures d in Lpip && d in rankData ==>
      exists z :: z in SolverLevels(rankData[d], Lpip[d]) &&
        (Solve(d, rankData, cat, o).error == KeyError(z) || Solve(d, rankData, cat, o).error == NotImplemented(z))
    ensures !Solve(d, rankData, cat, o).error.NotInList? && !Solve(d, rankData, cat, o).error.AssertionFailed?
  {
    if d in Lpip && d in rankData {
      LpipKeysNonZero(d);
      var levels := SolverLevels(rankData[d], Lpip[d]);
      LevelsHold163(rankData[d], Lpip[d]);
      assert Solve(d, rankData, cat, o) == Stages(d, levels, cat, o);
      StagesErrors(d, levels, cat, o);
    }
  }

  /** A failing run of the stages names one of the levels it was given. */
  lemma StagesErrors(d: int, levels: seq<Level>, cat: Catalogue, o: Oracles)
    requires d != 0 && 163 in InBucket(levels, NonHyperelliptic)
    requires Stages(d, levels, cat, o).Err?
    ensures exists z :: (z in levels &&
      (Stages(d, levels, cat, o).error == KeyError(z) || Stages(d, levels, cat, o).error == NotImplemented(z)))
  {
    var hypVals := InBucket(levels, Hyperelliptic);
    var nonVals := InBucket(levels, NonHyperelliptic);
    var e := Stages(d, levels, cat, o).error;
    if ProcessSpec(true, d, hypVals, cat, o).Err? {
      assert e == ProcessSpec(true, d, hypVals, cat, o).error;
      RunStepErrors(true, d, hypVals, cat, o);
      var z :| z in hypVals && (e == KeyError(z) || e == NotImplemented(z));
      assert z in levels;
    } else {
      assert e == ProcessNonHyperSpec(d, nonVals, cat, o).error;
      NonHyperErrors(d, nonVals, cat, o);
      var z :| z in nonVals && (e == KeyError(z) || e == NotImplemented(z));
      assert z in levels;
    }
  }

  /** Once 163 is present, `process_non_hyperelliptic` fails only on one of
      the remaining levels. */
  lemma NonHyperErrors(d: int, vals: seq<Level>, cat: Catalogue, o: Oracles)
    requires d != 0 && 163 in vals
    requires ProcessNonHyperSpec(d, vals, cat, o).Err?
    ensures exists z :: (z in vals &&
      (ProcessNonHyperSpec(d, vals, cat, o).error == KeyError(z) || ProcessNonHyperSpec(d, vals, cat, o).error == NotImplemented(z)))
  {
    var rest := RemoveFirst(vals, 163).value;
    assert ProcessNonHyperSpec(d, vals, cat, o) == ProcessSpec(false, d, rest, cat, o);
    RunStepErrors(false, d, rest, cat, o);
    var e := ProcessNonHyperSpec(d, vals, cat, o).error;
    var z :| z in rest && (e == KeyError(z) || e == NotImplemented(z));
    assert z in multiset(rest);
    assert z in vals;
  }
}
