/** The closed formulas of the engine: `det2x2`, `det2x2WithSteps`,
    `det3x3WithCofactorSteps` (expansion along the first row with 2 x 2 minors) and
    `metodoFormula2x2` (the inverse of a 2 x 2 matrix as adj(A) / det). */
module SmallFormulas {
  import opened Matrices
  import opened Determinant
  import opened Steps
  import Expansion
  import GaussJordanTheory
  import opened Options

  /** `det2x2(m)`: m[0][0] * m[1][1] - m[0][1] * m[1][0]. */
  function Det2x2(m: Matrix): real
    requires |m| >= 2 && |m[0]| >= 2 && |m[1]| >= 2
  {
    m[0][0] * m[1][1] - m[0][1] * m[1][0]
  }

  /** On a 2 x 2 matrix, `det2x2` is the determinant. */
  lemma {:induction false} Det2x2IsDet(m: Matrix)
    requires IsSquare(m) && |m| == 2
    ensures Det2x2(m) == Det(m)
  {
    DetOf2x2(m);
  }

  /** `det2x2WithSteps(A)`: the value and the single "Determinante 2×2" step. */
  function Det2x2WithSteps(A: Matrix): DetInfo
    requires |A| >= 2 && |A[0]| >= 2 && |A[1]| >= 2
  {
    var d := Det2x2(A);
    DetInfo(d, [Shown(Det2x2Formula(d), A)])
  }

  /** It returns det(A) and exactly one step, which shows A. */
  lemma {:induction false} Det2x2WithStepsIsDet(A: Matrix)
    requires IsSquare(A) && |A| == 2
    ensures Det2x2WithSteps(A).det == Det(A)
    ensures Det2x2WithSteps(A).steps == [Shown(Det2x2Formula(Det(A)), A)]
  {
    Det2x2IsDet(A);
  }

  /** `det3x3WithCofactorSteps(A)`: the three first-row minors, their 2 x 2
      determinants with the signs +, -, +, the sum of the three terms, and the five
      steps (formula, one per minor showing the minor, final sum). */
  function Det3x3WithCofactorSteps(A: Matrix): DetInfo
    requires IsSquare(A) && |A| == 3
  {
    var M11, M12, M13 := Minor(A, 0, 0), Minor(A, 0, 1), Minor(A, 0, 2);
    var C11, C12, C13 := Det2x2(M11), - Det2x2(M12), Det2x2(M13);
    var det := A[0][0] * C11 + A[0][1] * C12 + A[0][2] * C13;
    DetInfo(det, [Shown(Formula3x3, A),
                  Shown(MinorAndCofactor(0, C11), M11),
                  Shown(MinorAndCofactor(1, C12), M12),
                  Shown(MinorAndCofactor(2, C13), M13),
                  Shown(FinalSum(det), A)])
  }

  lemma {:induction false} Det3x3Terms(A: Matrix)
    requires IsSquare(A) && |A| == 3
    ensures Det(A) == Term(A, 0, 0) + Term(A, 0, 1) + Term(A, 0, 2)
  {
    assert RowSum(A, 0, 3) == RowSum(A, 0, 2) + Term(A, 0, 2);
    assert RowSum(A, 0, 2) == RowSum(A, 0, 1) + Term(A, 0, 1);
    assert RowSum(A, 0, 1) == RowSum(A, 0, 0) + Term(A, 0, 0);
  }

  /** The signed 2 x 2 determinant of each first-row minor is its cofactor. */
  lemma {:induction false} Det3x3Cofactors(A: Matrix)
    requires IsSquare(A) && |A| == 3
    ensures Det2x2(Minor(A, 0, 0)) == Cofactor(A, 0, 0)
    ensures - Det2x2(Minor(A, 0, 1)) == Cofactor(A, 0, 1)
    ensures Det2x2(Minor(A, 0, 2)) == Cofactor(A, 0, 2)
  {
    Det2x2IsDet(Minor(A, 0, 0));
    Det2x2IsDet(Minor(A, 0, 1));
    Det2x2IsDet(Minor(A, 0, 2));
  }

  /** The 3 x 3 formula is the determinant; its five steps are the formula on A, the
      minors M_11, M_12, M_13 with the cofactors C_1j = (-1)^(1+j) det(M_1j), and the
      final sum on A. */
  lemma {:induction false} Det3x3IsDet(A: Matrix)
    requires IsSquare(A) && |A| == 3
    ensures Det3x3WithCofactorSteps(A).det == Det(A)
    ensures var s := Det3x3WithCofactorSteps(A).steps;
      && |s| == 5
      && s[0] == Shown(Formula3x3, A) && s[4] == Shown(FinalSum(Det(A)), A)
      && forall j :: 0 <= j < 3 ==> s[j + 1] == Shown(MinorAndCofactor(j, Cofactor(A, 0, j)), Minor(A, 0, j))
  {
    Det3x3Cofactors(A);
    Det3x3Terms(A);
  }

  /** `adj = [[d, -b], [-c, a]]` of `metodoFormula2x2`. */
  function Formula2x2Adjugate(A: Matrix): Matrix
    requires |A| >= 2 && |A[0]| >= 2 && |A[1]| >= 2
  {
    [[A[1][1], - A[0][1]], [- A[1][0], A[0][0]]]
  }

  /** `metodoFormula2x2(A, d)`: the formula step (no matrix) and the step showing
      adj / d. */
  function Formula2x2Steps(A: Matrix, d: real): seq<Step>
    requires |A| >= 2 && |A[0]| >= 2 && |A[1]| >= 2 && d != 0.0
  {
    [Step(Formula2x2, None), Shown(Inverse, DivideAll(Formula2x2Adjugate(A), d))]
  }

  /** The 2 x 2 formula's matrix is the adjugate (the transposed cofactor matrix). */
  lemma {:induction false} Formula2x2IsAdjugate(A: Matrix)
    requires IsSquare(A) && |A| == 2
    ensures Formula2x2Adjugate(A) == Expansion.Adjugate(A)
  {
    var F := Formula2x2Adjugate(A);
    var Adj := Expansion.Adjugate(A);
    forall i, j | 0 <= i < 2 && 0 <= j < 2
      ensures F[i][j] == Adj[i][j]
    {
      Det1x1(Minor(A, j, i));
    }
    SameEntries(F, Adj);
  }

  /** With d = det(A) non-zero, the matrix the formula shows is the two-sided inverse
      of A. */
  lemma {:induction false} Formula2x2Inverse(A: Matrix, d: real)
    requires IsSquare(A) && |A| == 2 && d == Det(A) && d != 0.0
    ensures var inv := DivideAll(Formula2x2Adjugate(A), d);
      && Formula2x2Steps(A, d)[1] == Shown(Inverse, inv)
      && IsSquare(inv) && |inv| == 2
      && Mul(A, inv) == Identity(2) && Mul(inv, A) == Identity(2)
  {
    Formula2x2IsAdjugate(A);
    GaussJordanTheory.ExactGaussJordan(A);
  }

  /** `[[1, 2], [3, 4]]` has determinant -2 and the formula shows
      `[[-2, 1], [3/2, -1/2]]`. */
  lemma {:induction false} Formula2x2Example()
    ensures var A: Matrix := [[1.0, 2.0], [3.0, 4.0]];
      && Det2x2(A) == -2.0
      && Formula2x2Steps(A, -2.0)[1] == Shown(Inverse, [[-2.0, 1.0], [1.5, -0.5]])
  {
    var A: Matrix := [[1.0, 2.0], [3.0, 4.0]];
    var inv := DivideAll(Formula2x2Adjugate(A), -2.0);
    assert inv[0] == [-2.0, 1.0];
    assert inv[1] == [1.5, -0.5];
    assert inv == [[-2.0, 1.0], [1.5, -0.5]];
  }
}
