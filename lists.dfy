/** Sequence helpers: Python's `sorted`, `list.remove` and list filtering. */
module Lists {
  import opened Arith
  import opened Types

  /** Insert x into a non-decreasing list, after the entries smaller than x. */
  function Insert(x: Level, s: seq<Level>): (r: seq<Level>)
    requires NonDecreasing(s)
    ensures NonDecreasing(r)
    ensures forall y :: y in r ==> y == x || y in s
    ensures multiset(r) == multiset(s) + multiset{x}
  {
    if s == [] then [x]
    else if x <= s[0] then [x] + s
    else
      var rest := Insert(x, s[1..]);
      HeadBelowTail(s);
      ConsNonDecreasing(s[0], rest);
      var r := [s[0]] + rest;
      assert s == [s[0]] + s[1..];
      assert multiset(r) == multiset{s[0]} + multiset(rest);
      r
  }

  /** The head of a non-decreasing list is at most every later entry. */
  lemma HeadBelowTail(s: seq<Level>)
    requires NonDecreasing(s) && s != []
    ensures forall y :: y in s[1..] ==> s[0] <= y
  {
    forall y | y in s[1..] ensures s[0] <= y {
      var k :| 0 <= k < |s[1..]| && s[1..][k] == y;
      assert s[k + 1] == y;
    }
  }

  /** Putting a lower bound in front keeps a list non-decreasing. */
  lemma ConsNonDecreasing(a: Level, t: seq<Level>)
    requires NonDecreasing(t)
    requires forall y :: y in t ==> a <= y
    ensures NonDecreasing([a] + t)
  {
    var r := [a] + t;
    forall i, j | 0 <= i < j < |r| ensures r[i] <= r[j] {
      assert r[j] == t[j - 1];
      if i == 0 {
        assert t[j - 1] in t;
      } else {
        assert r[i] == t[i - 1];
      }
    }
  }

  /** Python's `sorted` on a list of levels (insertion sort). */
  function Sorted(s: seq<Level>): (r: seq<Level>)
    ensures NonDecreasing(r)
    ensures multiset(r) == multiset(s)
  {
    if s == [] then []
    else
      assert s == s[..|s| - 1] + [s[|s| - 1]];
      Insert(s[|s| - 1], Sorted(s[..|s| - 1]))
  }

  /** Sorting keeps the members. */
  lemma SortedMembers(s: seq<Level>)
    ensures forall x :: x in Sorted(s) <==> x in s
  {
    var r := Sorted(s);
    forall x
      ensures x in r <==> x in s
    {
      assert x in r <==> x in multiset(r);
      assert x in s <==> x in multiset(s);
    }
  }

  /** Insert x, absent from the strictly increasing list s, at its place. */
  function InsertNew(x: Level, s: seq<Level>): (r: seq<Level>)
    requires StrictlyIncreasing(s) && x !in s
    ensures StrictlyIncreasing(r)
    ensures forall y :: y in r <==> y == x || y in s
  {
    if s == [] then [x]
    else if x < s[0] then [x] + s
    else
      var rest := InsertNew(x, s[1..]);
      assert forall y :: y in s <==> y == s[0] || y in s[1..];
      assert forall i :: 0 <= i < |rest| ==> rest[i] in rest;
      [s[0]] + rest
  }

  /** Python's `sorted(list(S))` for a set S of levels. */
  method SortedListOfSet(S: set<Level>) returns (r: seq<Level>)
    ensures StrictlyIncreasing(r)
    ensures forall x :: x in r <==> x in S
    ensures r == SortedSeqOf(S)
  {
    var rest := S;
    r := [];
    while rest != {}
      invariant rest <= S
      invariant StrictlyIncreasing(r)
      invariant forall x :: x in r <==> x in S - rest
      decreases |rest|
    {
      var x :| x in rest;
      r := InsertNew(x, r);
      rest := rest - {x};
    }
    StrictlyIncreasingUnique(r, SortedSeqOf(S));
  }

  /** Position of the first occurrence of x in s. */
  function FirstIndex<T(==)>(s: seq<T>, x: T): (i: nat)
    requires x in s
    ensures i < |s| && s[i] == x && x !in s[..i]
  {
    if s[0] == x then 0
    else
      var j := FirstIndex(s[1..], x);
      assert s[..j + 1] == [s[0]] + s[1..][..j];
      j + 1
  }

  /** Python's `list.remove(x)` on a copy: drop the first occurrence of x;
      `None` stands for the ValueError on a list without x. */
  function RemoveFirst<T(==)>(s: seq<T>, x: T): (r: Option<seq<T>>)
    ensures r.None? <==> x !in s
    ensures r.Some? ==> multiset(r.value) == multiset(s) - multiset{x}
    ensures r.Some? ==> r.value == s[..FirstIndex(s, x)] + s[FirstIndex(s, x) + 1..]
  {
    if x !in s then None
    else
      var i := FirstIndex(s, x);
      assert s == s[..i] + [s[i]] + s[i + 1..];
      Some(s[..i] + s[i + 1..])
  }

  /** Appending the last element of an increasing s to a list drawn from the
      rest of s keeps the list increasing. */
  /** The same for non-decreasing lists. */
  lemma SnocNonDecreasing(s: seq<int>, r: seq<int>)
    requires s != []
    requires forall x :: x in r ==> x in s[..|s| - 1]
    requires NonDecreasing(s[..|s| - 1]) ==> NonDecreasing(r)
    ensures NonDecreasing(s) ==> NonDecreasing(r) && NonDecreasing(r + [s[|s| - 1]])
  {
    if NonDecreasing(s) {
      var init := s[..|s| - 1];
      assert forall k :: 0 <= k < |init| ==> init[k] == s[k];
      assert NonDecreasing(init);
      forall x | x in r
        ensures x <= s[|s| - 1]
      {
        var k :| 0 <= k < |init| && init[k] == x;
      }
      var t := r + [s[|s| - 1]];
      forall i, j | 0 <= i < j < |t|
        ensures t[i] <= t[j]
      {
        assert t[i] in r;
      }
    }
  }

  /** Removing one entry keeps a list non-decreasing. */
  lemma RemoveFirstNonDecreasing(s: seq<Level>, x: Level)
    requires NonDecreasing(s) && x in s
    ensures NonDecreasing(RemoveFirst(s, x).value)
  {
    var i := FirstIndex(s, x);
    var r := RemoveFirst(s, x).value;
    assert r == s[..i] + s[i + 1..];
    forall a, b | 0 <= a < b < |r|
      ensures r[a] <= r[b]
    {
      var a' := if a < i then a else a + 1;
      var b' := if b < i then b else b + 1;
      assert r[a] == s[a'] && r[b] == s[b'];
    }
  }

  lemma SnocIncreasing(s: seq<int>, r: seq<int>)
    requires s != []
    requires forall x :: x in r ==> x in s[..|s| - 1]
    requires StrictlyIncreasing(s[..|s| - 1]) ==> StrictlyIncreasing(r)
    ensures StrictlyIncreasing(s) ==> StrictlyIncreasing(r) && StrictlyIncreasing(r + [s[|s| - 1]])
  {
    if StrictlyIncreasing(s) {
      var init := s[..|s| - 1];
      assert forall k :: 0 <= k < |init| ==> init[k] == s[k];
      assert StrictlyIncreasing(init);
      forall x | x in r
        ensures x < s[|s| - 1]
      {
        var k :| 0 <= k < |init| && init[k] == x;
      }
      var t := r + [s[|s| - 1]];
      forall i, j | 0 <= i < j < |t|
        ensures t[i] < t[j]
      {
        assert t[i] in r;
      }
    }
  }

  /** Some element of a non-empty set (the next one a `for` loop over a
      Python set visits). */
  method Pick<T>(s: set<T>) returns (x: T)
    requires s != {}
    ensures x in s
  {
    x :| x in s;
  }

  lemma MinimumExists(S: set<Level>) returns (m: Level)
    requires S != {}
    ensures m in S && forall y :: y in S ==> m <= y
    decreases |S|
  {
    var x :| x in S;
    if S == {x} {
      m := x;
    } else {
      var m' := MinimumExists(S - {x});
      m := if x < m' then x else m';
      forall y | y in S
        ensures m <= y
      {
        if y != x {
          assert y in S - {x};
        }
      }
    }
  }

  lemma HasMinimum(S: set<Level>)
    requires S != {}
    ensures exists m :: m in S && forall y :: y in S ==> m <= y
  {
    var m := MinimumExists(S);
  }

  /** The elements of S in increasing order: `sorted(list(S))`. */
  ghost function SortedSeqOf(S: set<Level>): (r: seq<Level>)
    ensures StrictlyIncreasing(r)
    ensures forall x :: x in r <==> x in S
    decreases |S|
  {
    if S == {} then []
    else
      HasMinimum(S);
      var m :| m in S && forall y :: y in S ==> m <= y;
      var rest := SortedSeqOf(S - {m});
      assert forall k :: 0 <= k < |rest| ==> rest[k] in rest;
      [m] + rest
  }

  /** An increasing list is determined by its elements. */
  lemma {:induction false} StrictlyIncreasingUnique(a: seq<Level>, b: seq<Level>)
    requires StrictlyIncreasing(a) && StrictlyIncreasing(b)
    requires forall x :: x in a <==> x in b
    ensures a == b
  {
    assert |a| == 0 ==> |b| == 0 by {
      assert forall k :: 0 <= k < |b| ==> b[k] in a;
    }
    assert |b| == 0 ==> |a| == 0 by {
      assert forall k :: 0 <= k < |a| ==> a[k] in b;
    }
    if a != [] {
      assert a[0] in b;
      assert b != [];
      assert b[0] in a;
      assert a[0] == b[0];
      forall x
        ensures x in a[1..] <==> x in b[1..]
      {
        if x in a[1..] {
          var k :| 1 <= k < |a| && a[k] == x;
          assert x in b;
        }
        if x in b[1..] {
          var k :| 1 <= k < |b| && b[k] == x;
          assert x in a;
        }
      }
      StrictlyIncreasingUnique(a[1..], b[1..]);
    }
  }
}
