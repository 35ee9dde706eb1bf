/**
 * Integer helpers shared by the model: divisibility, primes, gcd, prime
 * divisors, square-freeness, and the discriminant of a quadratic field.
 * Integers are Sage integers, i.e. unbounded, so `int` needs no wrap-around.
 */
module Arith {

  function Abs(x: int): nat { if x < 0 then -x else x }

  function Square(k: int): int { k * k }

  /** `y.divides(x)` on Sage integers: 0 divides only 0. */
  predicate Divides(y: int, x: int) {
    if y == 0 then x == 0 else x % y == 0
  }

  predicate IsPrime(p: int) {
    p >= 2 && forall k :: 2 <= k < p ==> !Divides(k, p)
  }

  /** Sage's `is_squarefree` on a positive integer. */
  predicate IsSquarefree(n: int) {
    forall k :: 2 <= k <= Abs(n) ==> !Divides(Square(k), n)
  }

  predicate StrictlyIncreasing(s: seq<int>) {
    forall i, j :: 0 <= i < j < |s| ==> s[i] < s[j]
  }

  predicate NonDecreasing(s: seq<int>) {
    forall i, j :: 0 <= i < j < |s| ==> s[i] <= s[j]
  }

  // ---------------------------------------------------------------------
  // Divisibility

  lemma MulBound(y: int, e: int)
    requires y != 0 && e != 0
    ensures y * e >= y || y * e <= -y
    ensures y * e <= y || y * e >= -y
  {
  }

  lemma DividesMul(y: int, c: int)
    ensures Divides(y, y * c)
  {
    if y != 0 {
      var x := y * c;
      var q, r := x / y, x % y;
      assert x == y * q + r;
      var e := c - q;
      assert y * e == r;
      if e != 0 { MulBound(y, e); }
    }
  }

  lemma DividesWitness(y: int, x: int) returns (c: int)
    requires Divides(y, x)
    ensures x == y * c
  {
    if y == 0 { c := 0; } else { c := x / y; }
  }

  lemma DividesTrans(a: int, b: int, c: int)
    requires Divides(a, b) && Divides(b, c)
    ensures Divides(a, c)
  {
    var i := DividesWitness(a, b);
    var j := DividesWitness(b, c);
    assert c == a * (i * j);
    DividesMul(a, i * j);
  }

  lemma DividesLinear(k: int, x: int, y: int, m: int)
    requires Divides(k, x) && Divides(k, y)
    ensures Divides(k, x + m * y)
  {
    var i := DividesWitness(k, x);
    var j := DividesWitness(k, y);
    assert m * y == k * (m * j);
    assert x + m * y == k * (i + m * j);
    DividesMul(k, i + m * j);
  }

  lemma DividesAbs(k: int, x: int)
    ensures Divides(k, Abs(x)) <==> Divides(k, x)
  {
    if x < 0 {
      if Divides(k, x) {
        DividesLinear(k, 0, x, -1);
      }
      if Divides(k, Abs(x)) {
        DividesLinear(k, 0, Abs(x), -1);
      }
    }
  }

  /** A positive divisor of a non-zero integer is at most its absolute value. */
  lemma DivisorBound(k: int, n: int)
    requires k >= 1 && n != 0 && Divides(k, n)
    ensures k <= Abs(n)
  {
    var c := DividesWitness(k, n);
    assert c != 0;
    MulBound(k, c);
  }

  // ---------------------------------------------------------------------
  // Greatest common divisor (Sage's `gcd`, always non-negative)

  function Gcd(a: nat, b: nat): nat
    decreases b
  {
    if b == 0 then a else Gcd(b, a % b)
  }

  lemma DivModParts(a: int, b: int) returns (q: int, r: int)
    requires b > 0
    ensures r == a % b && a == r + q * b
  {
    q, r := a / b, a % b;
  }

  /** The divisors of gcd(a, b) are exactly the common divisors of a and b. */
  lemma {:induction false} GcdCommonDivisors(a: nat, b: nat, k: int)
    requires k != 0
    ensures Divides(k, Gcd(a, b)) <==> Divides(k, a) && Divides(k, b)
    decreases b
  {
    if b != 0 {
      GcdCommonDivisors(b, a % b, k);
      var q, r := DivModParts(a, b);
      if Divides(k, b) {
        if Divides(k, r) {
          DividesLinear(k, r, b, q);
        }
        if Divides(k, a) {
          DividesLinear(k, a, b, -q);
          assert a + (-q) * b == r;
        }
      }
    }
  }

  /** gcd(a, b) = 1 exactly when no integer k >= 2 divides both a and b. */
  lemma GcdIsOne(a: nat, b: nat)
    ensures Gcd(a, b) == 1 <==> forall k :: k >= 2 ==> !(Divides(k, a) && Divides(k, b))
  {
    var g := Gcd(a, b);
    if g == 1 {
      forall k | k >= 2
        ensures !(Divides(k, a) && Divides(k, b))
      {
        GcdCommonDivisors(a, b, k);
        if Divides(k, 1) { DivisorBound(k, 1); }
      }
    } else {
      var k := if g == 0 then 2 else g;
      GcdCommonDivisors(a, b, k);
      assert Divides(k, g);
      assert k >= 2 && Divides(k, a) && Divides(k, b);
    }
  }

  /** gcd of a list, as Sage's `gcd(list)`: gcd([]) = 0. */
  function GcdSeq(s: seq<int>): nat {
    if s == [] then 0 else Gcd(Abs(s[0]), GcdSeq(s[1..]))
  }

  lemma {:induction false} GcdSeqCommonDivisors(s: seq<int>, k: int)
    requires k != 0
    ensures Divides(k, GcdSeq(s)) <==> forall x :: x in s ==> Divides(k, x)
  {
    if s != [] {
      GcdSeqCommonDivisors(s[1..], k);
      GcdCommonDivisors(Abs(s[0]), GcdSeq(s[1..]), k);
      DividesAbs(k, s[0]);
      assert forall x :: x in s <==> x == s[0] || x in s[1..];
    }
  }

  /** k divides every entry of s. */
  predicate DividesAll(k: int, s: seq<int>) {
    forall x :: x in s ==> Divides(k, x)
  }

  /** gcd of a list is 1 exactly when no integer k >= 2 divides every entry. */
  lemma GcdSeqIsOne(s: seq<int>)
    ensures GcdSeq(s) == 1 <==> forall k :: k >= 2 ==> !DividesAll(k, s)
  {
    var g := GcdSeq(s);
    if g == 1 {
      forall k | k >= 2
        ensures !DividesAll(k, s)
      {
        GcdSeqCommonDivisors(s, k);
        if Divides(k, 1) { DivisorBound(k, 1); }
      }
    } else {
      var k := if g == 0 then 2 else g;
      GcdSeqCommonDivisors(s, k);
      assert Divides(k, g);
      assert DividesAll(k, s);
    }
  }

  // ---------------------------------------------------------------------
  // Prime divisors (Sage's `prime_divisors`: ascending list of the primes
  // dividing |n|)

  function PrimeDivisorsFrom(n: int, k: int): (r: seq<int>)
    requires n != 0 && k >= 2
    ensures StrictlyIncreasing(r)
    ensures forall p :: p in r <==> k <= p && IsPrime(p) && Divides(p, n)
    decreases Abs(n) + 1 - k
  {
    if k > Abs(n) then
      assert forall p :: k <= p && IsPrime(p) && Divides(p, n) ==> false by {
        forall p | k <= p && IsPrime(p) && Divides(p, n) ensures false { DivisorBound(p, n); }
      }
      []
    else
      var rest := PrimeDivisorsFrom(n, k + 1);
      assert forall i :: 0 <= i < |rest| ==> rest[i] in rest;
      if IsPrime(k) && Divides(k, n) then [k] + rest else rest
  }

  function PrimeDivisors(n: int): (r: seq<int>)
    requires n != 0
    ensures StrictlyIncreasing(r)
    ensures forall p :: p in r <==> IsPrime(p) && Divides(p, n)
  {
    PrimeDivisorsFrom(n, 2)
  }

  // ---------------------------------------------------------------------
  // Square-free part (needed for the discriminant of Q(sqrt(-N)))

  /** The least k in [k0, n] whose square divides n, or 0 when there is none. */
  function SquareDivisorFrom(n: int, k0: int): (k: int)
    requires n >= 1 && k0 >= 2
    ensures k == 0 ==> forall j :: k0 <= j <= n ==> !Divides(Square(j), n)
    ensures k != 0 ==> k0 <= k <= n && Divides(Square(k), n)
    decreases n + 1 - k0
  {
    if k0 > n then 0
    else if Divides(Square(k0), n) then k0
    else SquareDivisorFrom(n, k0 + 1)
  }

  lemma SquareAtLeastFour(k: int)
    requires k >= 2
    ensures Square(k) >= 4
  {
    assert k * k >= 2 * k;
  }

  lemma MulSign(s: int, q: int)
    requires s >= 0 && q <= 0
    ensures s * q <= 0
  {
  }

  lemma MulGrow(s: int, q: int)
    requires s >= 4 && q >= 1
    ensures s * q > q
  {
  }

  lemma QuotientBySquare(n: int, k: int)
    requires n >= 1 && k >= 2 && Divides(Square(k), n)
    ensures 1 <= n / Square(k) < n
    ensures n == Square(k) * (n / Square(k))
  {
    var s := Square(k);
    SquareAtLeastFour(k);
    var q := n / s;
    assert n == s * q + n % s;
    assert n == s * q;
    if q <= 0 { MulSign(s, q); }
    MulGrow(s, q);
  }

  /** The square-free m with n = m * s^2, for n >= 1. */
  function SquarefreePart(n: int): (m: int)
    requires n >= 1
    ensures m >= 1 && IsSquarefree(m) && Divides(m, n)
    ensures exists s :: s >= 1 && n == m * Square(s)
    ensures IsSquarefree(n) ==> m == n
    decreases n
  {
    var k := SquareDivisorFrom(n, 2);
    if k == 0 then
      DividesMul(n, 1);
      assert n == n * Square(1);
      n
    else
      QuotientBySquare(n, k);
      var q := n / Square(k);
      var m := SquarefreePart(q);
      DividesMul(q, Square(k));
      assert Divides(q, n);
      DividesTrans(m, q, n);
      var s :| s >= 1 && q == m * Square(s);
      SquareOfProduct(n, q, m, s, k);
      m
  }

  /** n = q k^2 and q = m s^2 give n = m (s k)^2. */
  lemma SquareOfProduct(n: int, q: int, m: int, s: int, k: int)
    requires s >= 1 && k >= 2
    requires n == Square(k) * q && q == m * Square(s)
    ensures s * k >= 1 && n == m * Square(s * k)
  {
    MulAssoc4(k, m, s);
  }

  lemma MulAssoc4(k: int, m: int, s: int)
    ensures (k * k) * (m * (s * s)) == m * ((s * k) * (s * k))
  {
  }

  // ---------------------------------------------------------------------
  // Quadratic fields

  /** Discriminant of Q(sqrt(d)) for square-free d: d if d = 1 mod 4, else 4d.
      (Python's `%` by the positive 4 agrees with Dafny's Euclidean `%`.) */
  function FieldDiscriminant(d: int): int {
    if d % 4 == 1 then d else 4 * d
  }

  /** The ramified primes of Q(sqrt(d)): the prime divisors of its discriminant. */
  function RamifiedPrimes(d: int): seq<int>
    requires d != 0
  {
    PrimeDivisors(FieldDiscriminant(d))
  }

  lemma OddTimesOdd(a: int, b: int)
    ensures ((2 * a + 1) * (2 * b + 1)) % 2 == 1
  {
    assert (2 * a + 1) * (2 * b + 1) == 2 * (2 * a * b + a + b) + 1;
  }

  /** An odd prime dividing 2m divides m. */
  lemma OddPrimeDividesDouble(p: int, m: int)
    requires IsPrime(p) && p != 2 && Divides(p, 2 * m)
    ensures Divides(p, m)
  {
    assert !Divides(2, p);
    var a := p / 2;
    assert p == 2 * a + 1;
    var c := DividesWitness(p, 2 * m);
    var b := c / 2;
    if c % 2 == 1 {
      assert c == 2 * b + 1;
      OddTimesOdd(a, b);
      assert false;
    }
    assert c == 2 * b;
    assert 2 * m == p * (2 * b);
    assert m == p * b;
    DividesMul(p, b);
  }

  /** An odd prime ramifies in Q(sqrt(d)) exactly when it divides d. */
  lemma OddPrimeRamified(d: int, p: int)
    requires d != 0 && IsPrime(p) && p != 2
    ensures p in RamifiedPrimes(d) <==> Divides(p, d)
  {
    if d % 4 != 1 {
      var D := FieldDiscriminant(d);
      if Divides(p, D) {
        assert D == 2 * (2 * d);
        OddPrimeDividesDouble(p, 2 * d);
        OddPrimeDividesDouble(p, d);
      }
      if Divides(p, d) {
        DividesLinear(p, 0, d, 4);
      }
    }
  }

  /** 2 ramifies in Q(sqrt(d)) exactly when d is not 1 mod 4. */
  lemma TwoRamified(d: int)
    requires d != 0
    ensures 2 in RamifiedPrimes(d) <==> d % 4 != 1
  {
    var D := FieldDiscriminant(d);
    assert IsPrime(2);
    assert 2 in RamifiedPrimes(d) <==> Divides(2, D);
    if d % 4 != 1 {
      assert D == 2 * (2 * d);
      DividesMul(2, 2 * d);
    } else {
      assert D == d;
      OddRemainder(d / 4, d % 4);
    }
  }

  /** A number 4q + 1 is odd. */
  lemma OddRemainder(q: int, r: int)
    requires r == 1
    ensures (4 * q + r) % 2 == 1
  {
    assert 4 * q + r == 2 * (2 * q) + 1;
  }

  // ---------------------------------------------------------------------
  // Checkers for facts about the literal constants of the program

  /** No k0 <= k < n divides n, checked one k at a time. */
  function NoDivisorFrom(n: int, k0: int): bool
    requires k0 >= 2
    decreases n - k0
  {
    k0 >= n || (n % k0 != 0 && NoDivisorFrom(n, k0 + 1))
  }

  lemma NoDivisorFromSound(n: int, k0: int)
    requires k0 >= 2 && NoDivisorFrom(n, k0)
    ensures forall k :: k0 <= k < n ==> !Divides(k, n)
    decreases n - k0
  {
    if k0 < n {
      NoDivisorFromSound(n, k0 + 1);
    }
  }

  /** Each element is below its successor. */
  function AdjacentIncreasing(s: seq<int>): bool {
    |s| < 2 || (s[0] < s[1] && AdjacentIncreasing(s[1..]))
  }

  lemma AdjacentIncreasingSound(s: seq<int>)
    requires AdjacentIncreasing(s)
    ensures StrictlyIncreasing(s)
  {
    if |s| >= 2 {
      AdjacentIncreasingSound(s[1..]);
      assert forall j :: 1 <= j < |s| ==> s[j] == s[1..][j - 1];
    }
  }
}
