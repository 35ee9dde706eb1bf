/**
 * sage_code/isogeny_graphs.py: isogeny classes of the j-invariants found on
 * the modular curves, and the "unrecorded isogenies" (in the sense of Mazur)
 * they reveal. The class computations themselves (Sage, PARI/GP) are the
 * oracle answers `sageClass` and `gpClass`; a time-out is one way for them to
 * fail.
 */
module IsogenyGraphs {
  import opened Types
  import opened Lists
  import opened SageUtils

  /** Index of the first row of the class that belongs to j. */
  function RowIndex(rows: seq<ClassRow>, j: JInv): (i: nat)
    requires exists k :: 0 <= k < |rows| && rows[k].j == j
    ensures i < |rows| && rows[i].j == j
    ensures forall k :: 0 <= k < i ==> rows[k].j != j
  {
    if rows[0].j == j then 0 else 1 + RowIndex(rows[1..], j)
  }

  /** `isogeny_degrees(j)`: the set of entries of the matrix row of the curve
      with j-invariant j (`C.index(E)` finds the first such curve). A j that
      labels no curve of the class gives None. */
  function IsogenyDegrees(cls: IsogenyClass, j: JInv): (r: Option<set<Level>>)
    ensures r.None? <==> forall k :: 0 <= k < |cls.rows| ==> cls.rows[k].j != j
    ensures r.Some? ==> exists i :: (0 <= i < |cls.rows| && cls.rows[i].j == j &&
      (forall k :: 0 <= k < i ==> cls.rows[k].j != j) &&
      (forall a :: a in r.value <==> a in cls.rows[i].degrees))
  {
    if exists k :: 0 <= k < |cls.rows| && cls.rows[k].j == j then
      var i := RowIndex(cls.rows, j);
      Some(set a | a in cls.rows[i].degrees)
    else
      None
  }

  /** `isogeny_class_via_sage(j, K, d)`: the Sage route first; on any
      exception (a time-out included), the PARI/GP route once, whose own
      failures (`attempt_gp_comp`) become None. */
  function IsogenyClassViaSage(j: JInv, o: Oracles): (r: Option<IsogenyClass>)
    ensures o.sageClass(j).SageClass? ==> r == Some(o.sageClass(j).cls)
    ensures o.sageClass(j).SageRaised? ==> r == o.gpClass(j)
    ensures r.None? <==> o.sageClass(j).SageRaised? && o.gpClass(j).None?
  {
    match o.sageClass(j)
    case SageClass(cls) => Some(cls)
    case SageRaised => o.gpClass(j)
  }

  /** The classes computed for js, in the order of js; failures are skipped. */
  function Successes(js: seq<JInv>, o: Oracles): (r: seq<IsogenyClass>)
    ensures |r| <= |js|
    ensures forall c :: c in r ==> exists j :: j in js && IsogenyClassViaSage(j, o) == Some(c)
    ensures forall j :: j in js && IsogenyClassViaSage(j, o).Some? ==> IsogenyClassViaSage(j, o).value in r
  {
    if js == [] then []
    else
      var init := js[..|js| - 1];
      var last := js[|js| - 1];
      assert js == init + [last];
      assert forall j :: j in init ==> j in js;
      var rest := Successes(init, o);
      match IsogenyClassViaSage(last, o)
      case Some(c) => rest + [c]
      case None => rest
  }

  /** The kept classes are those of the successful j, one for each, in the
      order of js: the k-th class is that of js[idx[k]] for increasing
      indices idx, which list every successful position. */
  lemma {:induction false} SuccessesInOrder(js: seq<JInv>, o: Oracles) returns (idx: seq<nat>)
    ensures |idx| == |Successes(js, o)|
    ensures forall k, l :: 0 <= k < l < |idx| ==> idx[k] < idx[l]
    ensures forall k :: 0 <= k < |idx| ==> idx[k] < |js| && IsogenyClassViaSage(js[idx[k]], o) == Some(Successes(js, o)[k])
    ensures forall i :: 0 <= i < |js| && IsogenyClassViaSage(js[i], o).Some? ==> i in idx
  {
    if js == [] {
      idx := [];
    } else {
      var n := |js| - 1;
      var init := js[..n];
      var pre := SuccessesInOrder(init, o);
      var rp := Successes(init, o);
      var last := IsogenyClassViaSage(js[n], o);
      PrefixPositions(js, o, pre, rp);
      ExtendPositions(js, o, pre, rp);
      SuccessesSnoc(js, o);
      idx := if last.Some? then pre + [n] else pre;
    }
  }

  /** Successes on js is that of all but the last j, extended by the last
      j's class when it has one. */
  lemma SuccessesSnoc(js: seq<JInv>, o: Oracles)
    requires |js| >= 1
    ensures var last := IsogenyClassViaSage(js[|js| - 1], o);
      Successes(js, o) == if last.Some? then Successes(js[..|js| - 1], o) + [last.value] else Successes(js[..|js| - 1], o)
  {
  }

  /** Positions in js[..n] are the same positions in js. */
  lemma PrefixPositions(js: seq<JInv>, o: Oracles, pre: seq<nat>, rp: seq<IsogenyClass>)
    requires |js| >= 1 && |pre| == |rp|
    requires forall k :: 0 <= k < |pre| ==> pre[k] < |js| - 1 && IsogenyClassViaSage(js[..|js| - 1][pre[k]], o) == Some(rp[k])
    requires forall i :: 0 <= i < |js| - 1 && IsogenyClassViaSage(js[..|js| - 1][i], o).Some? ==> i in pre
    ensures forall k :: 0 <= k < |pre| ==> pre[k] < |js| - 1 && IsogenyClassViaSage(js[pre[k]], o) == Some(rp[k])
    ensures forall i :: 0 <= i < |js| - 1 && IsogenyClassViaSage(js[i], o).Some? ==> i in pre
  {
    var init := js[..|js| - 1];
    forall k | 0 <= k < |pre|
      ensures pre[k] < |js| - 1 && IsogenyClassViaSage(js[pre[k]], o) == Some(rp[k])
    {
      assert init[pre[k]] == js[pre[k]];
    }
    forall i | 0 <= i < |js| - 1 && IsogenyClassViaSage(js[i], o).Some?
      ensures i in pre
    {
      assert init[i] == js[i];
    }
  }

  /** One step of SuccessesInOrder: the positions of the successes before
      the last j, extended by the last one when it succeeds. */
  lemma ExtendPositions(js: seq<JInv>, o: Oracles, pre: seq<nat>, rp: seq<IsogenyClass>)
    requires |js| >= 1 && |pre| == |rp|
    requires forall k, l :: 0 <= k < l < |pre| ==> pre[k] < pre[l]
    requires forall k :: 0 <= k < |pre| ==> pre[k] < |js| - 1 && IsogenyClassViaSage(js[pre[k]], o) == Some(rp[k])
    requires forall i :: 0 <= i < |js| - 1 && IsogenyClassViaSage(js[i], o).Some? ==> i in pre
    ensures var n := |js| - 1;
      var last := IsogenyClassViaSage(js[n], o);
      var idx := if last.Some? then pre + [n] else pre;
      var r := if last.Some? then rp + [last.value] else rp;
      && |idx| == |r|
      && (forall k, l :: 0 <= k < l < |idx| ==> idx[k] < idx[l])
      && (forall k :: 0 <= k < |idx| ==> idx[k] < |js| && IsogenyClassViaSage(js[idx[k]], o) == Some(r[k]))
      && (forall i :: 0 <= i < |js| && IsogenyClassViaSage(js[i], o).Some? ==> i in idx)
  {
    var n := |js| - 1;
    var last := IsogenyClassViaSage(js[n], o);
    if last.Some? {
      var idx := pre + [n];
      var r := rp + [last.value];
      forall k | 0 <= k < |idx|
        ensures idx[k] < |js| && IsogenyClassViaSage(js[idx[k]], o) == Some(r[k])
      {
        if k < |pre| {
          assert idx[k] == pre[k] && r[k] == rp[k];
        }
      }
      forall i | 0 <= i < |js| && IsogenyClassViaSage(js[i], o).Some? ensures i in idx {
        if i < n { assert i in pre; } else { assert idx[|pre|] == i; }
      }
    }
  }

  /** The value `failed_dict` records: `z if z else 0`. */
  function FailureValue(z: Option<Level>): int {
    if z.Some? then z.value else 0
  }

  /** Which matrix entries are wanted: in CM mode those that are neither
      genus-zero nor genus-one levels; otherwise the proper multiples of z. */
  predicate Wanted(a: Level, z: Option<Level>, cm: bool)
    requires cm || z.Some?
  {
    if cm then a !in GenusZeroList && a !in GenusOneList
    else a % z.value == 0 && a > z.value
  }

  /** a is an entry of some matrix row of some class. */
  predicate Occurs(a: Level, classes: seq<IsogenyClass>) {
    exists c, row :: c in classes && row in c.rows && a in row.degrees
  }

  /** `desired_degrees`. */
  function DesiredDegrees(classes: seq<IsogenyClass>, z: Option<Level>, cm: bool): (r: set<Level>)
    requires cm || z.Some?
    ensures forall a :: a in r <==> Occurs(a, classes) && Wanted(a, z, cm)
  {
    set c, row, a | c in classes && row in c.rows && a in row.degrees && Wanted(a, z, cm) :: a
  }

  /** The j-invariants C[i] of the curves whose matrix row i contains k,
      over all classes. */
  function Admitting(classes: seq<IsogenyClass>, k: Level): set<JInv> {
    set c, row | c in classes && row in c.rows && k in row.degrees :: row.j
  }

  /** All j-invariants of all classes. */
  function AllJInvs(classes: seq<IsogenyClass>): set<JInv> {
    set c, row | c in classes && row in c.rows :: row.j
  }

  /** A degree that occurs is admitted by at least one j-invariant, and by
      at most all of them. */
  lemma AdmittingBounds(classes: seq<IsogenyClass>, k: Level)
    requires Occurs(k, classes)
    ensures 1 <= |Admitting(classes, k)| <= |AllJInvs(classes)|
  {
    var c, row :| c in classes && row in c.rows && k in row.degrees;
    assert row.j in Admitting(classes, k);
    assert Admitting(classes, k) <= AllJInvs(classes);
    SubsetCard(Admitting(classes, k), AllJInvs(classes));
  }

  lemma SubsetCard<T>(a: set<T>, b: set<T>)
    requires a <= b
    ensures |a| <= |b|
  {
    assert b == a + (b - a);
  }

  /** The two dictionaries `unrecorded_isogenies` returns, when it returns. */
  function Unrecorded(js: seq<JInv>, o: Oracles, z: Option<Level>, cm: bool): (r: (map<Level, nat>, map<JInv, int>))
    requires cm || z.Some?
  {
    var classes := Successes(js, o);
    (map k | k in DesiredDegrees(classes, z, cm) :: |Admitting(classes, k)|,
     map j | j in js && IsogenyClassViaSage(j, o).None? :: FailureValue(z))
  }

  /** What `unrecorded_isogenies` promises: a failed j is recorded with
      `z if z else 0`, a successful one never; the degree keys are exactly
      the wanted matrix entries, each with its number of distinct admitting
      j-invariants, which is at least 1 and at most the number of distinct
      j-invariants of all the classes. */
  lemma UnrecordedSpec(js: seq<JInv>, o: Oracles, z: Option<Level>, cm: bool)
    requires cm || z.Some?
    ensures var (degrees, failed) := Unrecorded(js, o, z, cm);
      && (forall j :: j in failed <==> j in js && IsogenyClassViaSage(j, o).None?)
      && (forall j :: j in failed ==> failed[j] == (if z.Some? then z.value else 0))
      && (forall a :: a in degrees <==> Occurs(a, Successes(js, o)) && Wanted(a, z, cm))
      && (forall a :: a in degrees ==> 1 <= degrees[a] <= |AllJInvs(Successes(js, o))|)
      && (!cm ==> forall a :: a in degrees ==> a > z.value && a % z.value == 0)
  {
    var classes := Successes(js, o);
    forall a | a in DesiredDegrees(classes, z, cm)
      ensures 1 <= |Admitting(classes, a)| <= |AllJInvs(classes)|
    {
      AdmittingBounds(classes, a);
    }
  }

  /** The j-invariants of the rows containing k, by the nested loops of
      `unrecorded_isogenies`. */
  method JInvsAdmittingDegree(classes: seq<IsogenyClass>, k: Level) returns (admitting: set<JInv>)
    ensures admitting == Admitting(classes, k)
  {
    admitting := {};
    for ci := 0 to |classes|
      invariant forall x :: x in admitting <==>
        exists c, row :: c in classes[..ci] && row in c.rows && k in row.degrees && row.j == x
    {
      var rows := classes[ci].rows;
      for i := 0 to |rows|
        invariant forall x :: x in admitting <==>
          (exists c, row :: c in classes[..ci] && row in c.rows && k in row.degrees && row.j == x) ||
          (exists row :: row in rows[..i] && k in row.degrees && row.j == x)
      {
        if k in rows[i].degrees {
          admitting := admitting + {rows[i].j};
        }
        assert rows[..i + 1] == rows[..i] + [rows[i]];
      }
      assert rows[..|rows|] == rows;
      assert classes[..ci + 1] == classes[..ci] + [classes[ci]];
    }
    assert classes[..|classes|] == classes;
  }

  /** The class loop of `unrecorded_isogenies`: successes are appended in
      order, failures recorded, and the loop never stops early. */
  method ComputeClasses(js: seq<JInv>, o: Oracles, z: Option<Level>)
    returns (classes: seq<IsogenyClass>, failed: map<JInv, int>)
    ensures classes == Successes(js, o)
    ensures forall j :: j in failed <==> j in js && IsogenyClassViaSage(j, o).None?
    ensures forall j :: j in failed ==> failed[j] == FailureValue(z)
  {
    classes := [];
    failed := map[];
    for i := 0 to |js|
      invariant classes == Successes(js[..i], o)
      invariant forall j :: j in failed <==> j in js[..i] && IsogenyClassViaSage(j, o).None?
      invariant forall j :: j in failed ==> failed[j] == FailureValue(z)
    {
      var j := js[i];
      assert js[..i + 1][..i] == js[..i];
      assert js[..i + 1] == js[..i] + [j];
      SuccessesSnoc(js[..i + 1], o);
      var attempt := IsogenyClassViaSage(j, o);
      if attempt.Some? {
        classes := classes + [attempt.value];
      } else {
        failed := failed[j := FailureValue(z)];
      }
    }
    assert js[..|js|] == js;
  }

  /** The counting loop of `unrecorded_isogenies`. */
  method CountDegrees(classes: seq<IsogenyClass>, desired: set<Level>) returns (degrees: map<Level, nat>)
    ensures forall k :: k in degrees <==> k in desired
    ensures forall k :: k in degrees ==> degrees[k] == |Admitting(classes, k)|
  {
    degrees := map[];
    var rest := desired;
    while rest != {}
      invariant rest <= desired
      invariant forall k :: k in degrees <==> k in desired && k !in rest
      invariant forall k :: k in degrees ==> degrees[k] == |Admitting(classes, k)|
      decreases |rest|
    {
      var k := Pick(rest);
      var admitting := JInvsAdmittingDegree(classes, k);
      degrees := degrees[k := |admitting|];
      rest := rest - {k};
    }
  }

  lemma DegreeMapEqual(degrees: map<Level, nat>, classes: seq<IsogenyClass>, desired: set<Level>)
    requires forall k :: k in degrees <==> k in desired
    requires forall k :: k in degrees ==> degrees[k] == |Admitting(classes, k)|
    ensures degrees == map k | k in desired :: |Admitting(classes, k)|
  {
    var spec := map k | k in desired :: |Admitting(classes, k)|;
    assert degrees.Keys == spec.Keys;
  }

  lemma FailureMapEqual(failed: map<JInv, int>, js: seq<JInv>, o: Oracles, z: Option<Level>)
    requires forall j :: j in failed <==> j in js && IsogenyClassViaSage(j, o).None?
    requires forall j :: j in failed ==> failed[j] == FailureValue(z)
    ensures failed == map j | j in js && IsogenyClassViaSage(j, o).None? :: FailureValue(z)
  {
    var spec := map j | j in js && IsogenyClassViaSage(j, o).None? :: FailureValue(z);
    assert failed.Keys == spec.Keys;
  }

  /** `unrecorded_isogenies(K, my_js, d, z, cm)`. Without CM the level z
      must be given (`assert z is not None`, checked after the class loop). */
  method UnrecordedIsogenies(js: seq<JInv>, o: Oracles, z: Option<Level>, cm: bool)
    returns (r: Result<(map<Level, nat>, map<JInv, int>)>)
    ensures r.Err? <==> !cm && z.None?
    ensures r.Err? ==> r.error == AssertionFailed
    ensures r.Ok? ==> r.value == Unrecorded(js, o, z, cm)
  {
    var classes, failed := ComputeClasses(js, o, z);
    if !cm && z.None? {
      return Err(AssertionFailed);
    }
    var desired := DesiredDegrees(classes, z, cm);
    var degrees := CountDegrees(classes, desired);
    DegreeMapEqual(degrees, classes, desired);
    FailureMapEqual(failed, js, o, z);
    r := Ok((degrees, failed));
  }
}
