/** `cofactorExpansionSteps(A, row)` of the determinant page: the expansion along one
    row, with a header step, two steps per column (the cofactor, which shows the minor,
    and the term a_row,j * C_row,j, which shows A) and a final sum. The determinant of
    each minor comes from `det2x2` (two rows), `det3x3WithCofactorSteps` (three rows)
    or the elimination (any other size). */
module CofactorExpansion {
  import opened Matrices
  import opened Determinant
  import opened Steps
  import opened ForwardElimination
  import opened SmallFormulas
  import Expansion
  import opened Options

  /** The sub-determinant the expansion uses for a minor. */
  function ExpansionMinorDet(m: Matrix, eps: real): real
    requires IsSquare(m)
  {
    if |m| == 2 then Det2x2(m)
    else if |m| == 3 then Det3x3WithCofactorSteps(m).det
    else Elimination(m, eps).det
  }

  /** `cofactor = sign * minorDet` with `sign = ((row + j) % 2 === 0) ? 1 : -1`. */
  function ExpansionCofactor(A: Matrix, row: nat, j: nat, eps: real): real
    requires IsSquare(A) && row < |A| && j < |A|
  {
    Sign(row + j) * ExpansionMinorDet(Minor(A, row, j), eps)
  }

  /** The cofactors of the chosen row, one per column. */
  function ExpansionCofactors(A: Matrix, row: nat, eps: real): (cof: seq<real>)
    requires IsSquare(A) && row < |A|
    ensures |cof| == |A|
    ensures forall j :: 0 <= j < |A| ==> cof[j] == ExpansionCofactor(A, row, j, eps)
  {
    seq(|A|, j requires 0 <= j < |A| => ExpansionCofactor(A, row, j, eps))
  }

  /** `det` after the columns before k: 0, then `det += A[row][j] * cofactor`. */
  function Accumulated(A: Matrix, row: nat, cof: seq<real>, k: nat): real
    requires IsSquare(A) && row < |A| && |cof| == |A| && k <= |A|
  {
    if k == 0 then 0.0 else Accumulated(A, row, cof, k - 1) + A[row][k - 1] * cof[k - 1]
  }

  /** The two steps of column j: the cofactor (showing the minor), then the term
      (showing A). */
  function ColumnSteps(A: Matrix, row: nat, cof: seq<real>, j: nat): seq<Step>
    requires IsSquare(A) && row < |A| && |cof| == |A| && j < |A|
  {
    [Shown(CofactorOf(row, j, cof[j]), Minor(A, row, j)), Shown(TermOf(row, j, A[row][j] * cof[j]), A)]
  }

  /** The steps of the columns before k. */
  function ColumnsSteps(A: Matrix, row: nat, cof: seq<real>, k: nat): seq<Step>
    requires IsSquare(A) && row < |A| && |cof| == |A| && k <= |A|
  {
    if k == 0 then [] else ColumnsSteps(A, row, cof, k - 1) + ColumnSteps(A, row, cof, k - 1)
  }

  /** The header, the steps of every column and the final sum. */
  function ExpansionSteps(A: Matrix, row: nat, cof: seq<real>, det: real): seq<Step>
    requires IsSquare(A) && row < |A| && |cof| == |A|
  {
    [Shown(ExpansionHeader(row), A)] + ColumnsSteps(A, row, cof, |A|) + [Shown(FinalSum(det), A)]
  }

  /** What `cofactorExpansionSteps(A, row)` returns. */
  function CofactorExpansionOf(A: Matrix, row: nat, eps: real): DetInfo
    requires IsSquare(A) && row < |A|
  {
    var cof := ExpansionCofactors(A, row, eps);
    var det := Accumulated(A, row, cof, |A|);
    DetInfo(det, ExpansionSteps(A, row, cof, det))
  }

  /** The sub-determinant as the source computes it, calling the step-recording
      methods and keeping only their value. */
  method ExpansionMinorDeterminant(m: Matrix, eps: real) returns (d: real)
    requires IsSquare(m)
    ensures d == ExpansionMinorDet(m, eps)
  {
    if |m| == 2 {
      d := Det2x2(m);
    } else if |m| == 3 {
      d := Det3x3WithCofactorSteps(m).det;
    } else {
      var minorSteps;
      d, minorSteps := DetEliminationWithSteps(m, eps);
    }
  }

  /** The cofactor of column j as the loop body computes it. */
  method CofactorOfColumn(A: Matrix, row: nat, j: nat, eps: real) returns (cofactor: real)
    requires IsSquare(A) && row < |A| && j < |A|
    ensures cofactor == ExpansionCofactor(A, row, j, eps)
  {
    var sign := if (row + j) % 2 == 0 then 1.0 else -1.0;
    var minorDet := ExpansionMinorDeterminant(Minor(A, row, j), eps);
    cofactor := sign * minorDet;
  }

  /** `cofactorExpansionSteps(A, row)`. */
  method CofactorExpansionSteps(A: Matrix, row: nat, eps: real) returns (r: DetInfo)
    requires IsSquare(A) && row < |A|
    ensures r == CofactorExpansionOf(A, row, eps)
  {
    var n := |A|;
    ghost var cof := ExpansionCofactors(A, row, eps);
    var header := [Shown(ExpansionHeader(row), A)];
    var steps := header;
    var det := 0.0;
    for j := 0 to n
      invariant det == Accumulated(A, row, cof, j)
      invariant steps == header + ColumnsSteps(A, row, cof, j)
    {
      var cofactor := CofactorOfColumn(A, row, j, eps);
      var term := A[row][j] * cofactor;
      NextColumn(A, row, cof, j, cofactor);
      det := det + term;
      steps := steps + [Shown(CofactorOf(row, j, cofactor), Minor(A, row, j)), Shown(TermOf(row, j, term), A)];
    }
    r := DetInfo(det, steps + [Shown(FinalSum(det), A)]);
  }

  /** What the loop body adds for column j, given its cofactor c. */
  lemma {:induction false} NextColumn(A: Matrix, row: nat, cof: seq<real>, j: nat, c: real)
    requires IsSquare(A) && row < |A| && |cof| == |A| && j < |A| && cof[j] == c
    ensures Accumulated(A, row, cof, j + 1) == Accumulated(A, row, cof, j) + A[row][j] * c
    ensures ColumnsSteps(A, row, cof, j + 1)
      == ColumnsSteps(A, row, cof, j) + [Shown(CofactorOf(row, j, c), Minor(A, row, j)), Shown(TermOf(row, j, A[row][j] * c), A)]
  {
  }

  lemma {:induction false} ColumnsStepsLength(A: Matrix, row: nat, cof: seq<real>, k: nat)
    requires IsSquare(A) && row < |A| && |cof| == |A| && k <= |A|
    ensures |ColumnsSteps(A, row, cof, k)| == 2 * k
  {
    if k > 0 {
      ColumnsStepsLength(A, row, cof, k - 1);
    }
  }

  /** Column j's two steps sit at positions 2j and 2j + 1. */
  lemma {:induction false} ColumnsStepsAt(A: Matrix, row: nat, cof: seq<real>, k: nat, j: nat)
    requires IsSquare(A) && row < |A| && |cof| == |A| && j < k <= |A|
    ensures 2 * j + 1 < |ColumnsSteps(A, row, cof, k)|
    ensures ColumnsSteps(A, row, cof, k)[2 * j] == Shown(CofactorOf(row, j, cof[j]), Minor(A, row, j))
    ensures ColumnsSteps(A, row, cof, k)[2 * j + 1] == Shown(TermOf(row, j, A[row][j] * cof[j]), A)
  {
    var P := ColumnsSteps(A, row, cof, k - 1);
    assert ColumnsSteps(A, row, cof, k) == P + ColumnSteps(A, row, cof, k - 1);
    ColumnsStepsLength(A, row, cof, k - 1);
    if j < k - 1 {
      ColumnsStepsAt(A, row, cof, k - 1, j);
    } else {
      var C := ColumnSteps(A, row, cof, j);
      assert 2 * j == |P| && 2 * j + 1 == |P| + 1;
      assert ColumnsSteps(A, row, cof, k)[2 * j] == C[0];
      assert ColumnsSteps(A, row, cof, k)[2 * j + 1] == C[1];
    }
  }

  /** The expansion records 2n + 2 steps: the header on A; for each column j the
      cofactor C_row,j (the list `cof` holds them) showing the minor M_row,j and the
      term a_row,j C_row,j showing A; and the final sum on A. */
  lemma {:induction false} ExpansionStepsShape(A: Matrix, row: nat, cof: seq<real>, det: real)
    requires IsSquare(A) && row < |A| && |cof| == |A|
    ensures |ExpansionSteps(A, row, cof, det)| == 2 * |A| + 2
    ensures ExpansionSteps(A, row, cof, det)[0] == Shown(ExpansionHeader(row), A)
    ensures forall j :: 0 <= j < |A| ==>
      ExpansionSteps(A, row, cof, det)[2 * j + 1] == Shown(CofactorOf(row, j, cof[j]), Minor(A, row, j))
    ensures forall j :: 0 <= j < |A| ==>
      ExpansionSteps(A, row, cof, det)[2 * j + 2] == Shown(TermOf(row, j, A[row][j] * cof[j]), A)
    ensures ExpansionSteps(A, row, cof, det)[2 * |A| + 1] == Shown(FinalSum(det), A)
  {
    var S := ColumnsSteps(A, row, cof, |A|);
    ColumnsStepsLength(A, row, cof, |A|);
    forall j | 0 <= j < |A|
      ensures ExpansionSteps(A, row, cof, det)[2 * j + 1] == Shown(CofactorOf(row, j, cof[j]), Minor(A, row, j))
      ensures ExpansionSteps(A, row, cof, det)[2 * j + 2] == Shown(TermOf(row, j, A[row][j] * cof[j]), A)
    {
      ColumnsStepsAt(A, row, cof, |A|, j);
    }
  }

  /** With exact pivot tests each sub-determinant is the determinant of the minor. */
  lemma {:induction false} ExactExpansionMinorDet(m: Matrix)
    requires IsSquare(m)
    ensures ExpansionMinorDet(m, 0.0) == Det(m)
  {
    if |m| == 2 {
      Det2x2IsDet(m);
    } else if |m| == 3 {
      Det3x3IsDet(m);
    } else {
      ExactEliminationDet(m);
    }
  }

  /** Once the cofactors are the true ones, the running sum is the partial sum of the
      expansion along the row. */
  lemma {:induction false} AccumulatedIsRowSum(A: Matrix, row: nat, cof: seq<real>, k: nat)
    requires IsSquare(A) && row < |A| && |cof| == |A| && k <= |A|
    requires forall j :: 0 <= j < |A| ==> cof[j] == Cofactor(A, row, j)
    ensures Accumulated(A, row, cof, k) == RowSum(A, row, k)
  {
    if k > 0 {
      AccumulatedIsRowSum(A, row, cof, k - 1);
    }
  }

  /** With exact pivot tests the expansion along any row is the determinant. */
  lemma {:induction false} ExactCofactorExpansion(A: Matrix, row: nat)
    requires IsSquare(A) && row < |A|
    ensures CofactorExpansionOf(A, row, 0.0).det == Det(A)
  {
    var cof := ExpansionCofactors(A, row, 0.0);
    forall j | 0 <= j < |A|
      ensures cof[j] == Cofactor(A, row, j)
    {
      ExactExpansionMinorDet(Minor(A, row, j));
      CofactorSign(A, row, j);
    }
    AccumulatedIsRowSum(A, row, cof, |A|);
    Expansion.Laplace(A, row);
  }

  /** For 3 x 3 and 4 x 4 matrices every minor goes through a closed formula, so the
      expansion is the determinant whatever the pivot threshold. */
  lemma {:induction false} ExpansionIgnoresThreshold(A: Matrix, row: nat, eps: real)
    requires IsSquare(A) && row < |A| && 3 <= |A| <= 4
    ensures CofactorExpansionOf(A, row, eps).det == Det(A)
  {
    var cof := ExpansionCofactors(A, row, eps);
    forall j | 0 <= j < |A|
      ensures cof[j] == Cofactor(A, row, j)
    {
      var m := Minor(A, row, j);
      if |m| == 2 {
        Det2x2IsDet(m);
      } else {
        Det3x3IsDet(m);
      }
      CofactorSign(A, row, j);
    }
    AccumulatedIsRowSum(A, row, cof, |A|);
    Expansion.Laplace(A, row);
  }

  /** For [[10^12, 0], [0, 10^-13]] the 2 x 2 formula gives 1/10, but the expansion
      along the first row gives 0: the 1 x 1 minor [[10^-13]] goes through the
      elimination, whose pivot test treats 10^-13 as zero. */
  lemma {:induction false} ExpansionDropsSmallMinor()
    ensures var A: Matrix := [[1000000000000.0, 0.0], [0.0, 0.0000000000001]];
      && IsSquare(A) && Det2x2(A) == 0.1 && Det(A) == 0.1
      && CofactorExpansionOf(A, 0, Eps).det == 0.0
  {
    var A: Matrix := [[1000000000000.0, 0.0], [0.0, 0.0000000000001]];
    Det2x2IsDet(A);
    var M0 := Minor(A, 0, 0);
    var M1 := Minor(A, 0, 1);
    assert M0[0][0] == 0.0000000000001 && M1[0][0] == 0.0;
    Elimination1x1(M0, Eps);
    Elimination1x1(M1, Eps);
    var cof := ExpansionCofactors(A, 0, Eps);
    assert Negligible(M0[0][0], Eps) && Negligible(M1[0][0], Eps);
    assert ExpansionMinorDet(M0, Eps) == 0.0 && ExpansionMinorDet(M1, Eps) == 0.0;
    assert cof[0] == ExpansionCofactor(A, 0, 0, Eps) == Sign(0) * ExpansionMinorDet(M0, Eps);
    assert cof[1] == ExpansionCofactor(A, 0, 1, Eps) == Sign(1) * ExpansionMinorDet(M1, Eps);
    assert Accumulated(A, 0, cof, 1) == 0.0 + A[0][0] * cof[0];
    assert Accumulated(A, 0, cof, 2) == Accumulated(A, 0, cof, 1) + A[0][1] * cof[1];
  }
}
