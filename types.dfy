/**
 * The data the solver works on. Every computer-algebra answer the Python code
 * obtains from Sage, Magma or PARI/GP is an input here (the `Oracles` record):
 * the model covers the bookkeeping around those answers, not the answers.
 */
module Types {

  /** Index N of a modular curve X0(N): a positive integer. */
  type Level = n: int | n >= 1 witness 1

  datatype Option<T> = None | Some(value: T)

  /** An element a + b*g of Q(sqrt(d)), where g = K_gen and g^2 = d.
      A rational j-invariant has b = 0. */
  datatype QuadElt = QuadElt(a: real, b: real)

  type JInv = QuadElt

  /** The Galois conjugate a - b*g. */
  function Conjugate(x: QuadElt): (r: QuadElt)
    ensures r.a == x.a && r.b == -x.b
  {
    QuadElt(x.a, -x.b)
  }

  /** A count in the solver's answer: a number of j-invariants, or Sage's
      `+Infinity` for a genus-one level of positive rank. */
  datatype Count = Fin(n: nat) | Inf

  /** `+` on counts; `+Infinity` absorbs every finite count. */
  function Add(x: Count, y: Count): (r: Count)
    ensures r == Inf <==> x == Inf || y == Inf
    ensures r.Fin? ==> r.n == x.n + y.n
  {
    if x.Fin? && y.Fin? then Fin(x.n + y.n) else Inf
  }

  /** One value of the quadratic-points catalogue, keyed by level. The points
      are Galois-orbit representatives (a, b), keyed by the discriminant d. */
  datatype CatalogueEntry = CatalogueEntry(
    isComplete: bool,
    unramifiedPrimes: seq<int>,
    nonCmPoints: map<int, seq<(real, real)>>)

  type Catalogue = map<int, CatalogueEntry>

  /** For one irreducible component of a modular-symbols space: whether the
      rational period mapping sends the winding element, resp. the twisted
      winding element, to 0. */
  datatype PeriodImages = PeriodImages(windingZero: bool, twistedWindingZero: bool)

  /** Row i of an isogeny-class matrix together with the j-invariant C[i] of
      the i-th curve of the class. The entries are isogeny degrees, hence
      positive. */
  datatype ClassRow = ClassRow(j: JInv, degrees: seq<Level>)

  /** An isogeny class: its curves' j-invariants paired with the degree matrix. */
  datatype IsogenyClass = IsogenyClass(rows: seq<ClassRow>)

  /** Outcome of the Sage route (under its timeout): a class, or any exception. */
  datatype SageAttempt = SageClass(cls: IsogenyClass) | SageRaised

  /** The answers of the computer-algebra systems, for one fixed d. */
  datatype Oracles = Oracles(
    chi: int -> int,                          // kronecker_character(d)
    plusComponents: int -> seq<PeriodImages>, // plus part of the cusp forms of level p over the character's ring
    minusComponents: int -> seq<PeriodImages>,
    plusPointCount: (int, int, int) -> int,   // (p, q, i): charpoly of Frob_q^i at 1, plus part of J0(p)
    minusPointCount: (int, int, int) -> int,  // the same for the minus part
    torsionOrder: int -> int,                 // rational torsion order of J0(p)
    primeClassTrivial: (int, int) -> bool,    // (p, N): a prime above p is principal in Q(sqrt(-N))
    twist37bRankZero: bool,                   // analytic rank of the d-twist of 37b1 is 0
    preimageCount37: int,                     // Magma ComputePreimages(d)
    ellipticJInvs: seq<(Level, seq<JInv>)>,   // Magma EllipticCount(d): level -> j-invariants
    cmJInvs: seq<JInv>,                       // cm_j_invariants(K)
    sageClass: JInv -> SageAttempt,           // isogeny class through Sage
    gpClass: JInv -> Option<IsogenyClass>)    // isogeny class through PARI/GP; None on failure

  /** Everything that ends a solver run with an exception. */
  datatype Error =
    | KeyError(key: int)            // lookup of a missing dictionary key
    | NoLargePrimeData(d: int)      // ValueError: d is not a key of LPIP
    | NotInList(x: int)             // ValueError from list.remove
    | AssertionFailed               // `assert z is not None`
    | NotImplemented(level: int)    // NotImplementedError: no filter settles this level

  datatype Result<T> = Ok(value: T) | Err(error: Error)
}
