/** The flat-index <-> (point, dimension) mapping of the per-dimension Nystrom estimator.
    A flat index enumerates the (point x dimension) space point-major, dimension-minor,
    which is also the column-major layout of a D x N matrix. */
module IndexMap {

  /** `idx_to_ai`: decodes a flat index into (point index, dimension index).
      Indices are never negative in the estimator, so C++'s truncating division and
      Dafny's Euclidean division agree. */
  function IdxToAi(idx: nat, D: nat): (ai: (nat, nat))
    requires D >= 1
    ensures ai.1 < D
    ensures ai.0 * D + ai.1 == idx
  {
    (idx / D, idx % D)
  }

  /** The inverse encoding, point * D + dimension (not a member of the C++ class; it is
      the partner that IdxToAi is proved against). */
  function AiToIdx(a: nat, i: nat, D: nat): nat
  {
    a * D + i
  }

  lemma MulMonotone(x: nat, y: nat, D: nat)
    requires x <= y
    ensures x * D <= y * D
  {
  }

  /** Encoding a (point, dimension) pair and decoding it again gives the pair back. */
  lemma AiToIdxRoundTrip(a: nat, i: nat, D: nat)
    requires i < D
    ensures IdxToAi(AiToIdx(a, i, D), D) == (a, i)
  {
    var ai := IdxToAi(AiToIdx(a, i, D), D);
    if ai.0 < a {
      MulMonotone(ai.0 + 1, a, D);
      assert false;
    } else if ai.0 > a {
      MulMonotone(a + 1, ai.0, D);
      assert false;
    }
  }

  /** Two flat indices decode to the same pair only if they are equal. */
  lemma IdxToAiInjective(x: nat, y: nat, D: nat)
    requires D >= 1
    requires IdxToAi(x, D) == IdxToAi(y, D)
    ensures x == y
  {
  }

  /** A flat index below N * D names a point below N. */
  lemma PointBelow(idx: nat, N: nat, D: nat)
    requires D >= 1
    requires idx < N * D
    ensures IdxToAi(idx, D).0 < N
  {
    var ai := IdxToAi(idx, D);
    if ai.0 >= N {
      MulMonotone(N, ai.0, D);
      assert false;
    }
  }

  /** A (point, dimension) pair inside an N-point, D-dimensional space encodes below N * D. */
  lemma FlatBelow(a: nat, i: nat, N: nat, D: nat)
    requires a < N && i < D
    ensures AiToIdx(a, i, D) < N * D
  {
    MulMonotone(a + 1, N, D);
  }

  /** The cases the unit test checks, with D = 3. */
  lemma IdxToAiUnitCases()
    ensures IdxToAi(0, 3) == (0, 0)
    ensures IdxToAi(1, 3) == (0, 1)
    ensures IdxToAi(2, 3) == (0, 2)
    ensures IdxToAi(3, 3) == (1, 0)
    ensures IdxToAi(4, 3) == (1, 1)
  {
  }
}
