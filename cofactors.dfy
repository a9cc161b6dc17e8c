/** `cofactorSteps` (the cofactor matrix filled entry by entry, one step per entry,
    then the cofactor matrix and its transpose, the adjugate) and `metodoAdjunta`
    (the inverse as adj(A) / d), as in the inverse page and the class version. */
module Cofactors {
  import opened Matrices
  import opened Determinant
  import opened Steps
  import opened ForwardElimination
  import opened SmallFormulas
  import Expansion
  import GaussJordanElimination
  import GaussJordanTheory

  /** The sub-determinant `cofactorSteps` uses: `det2x2` when the minor has two rows,
      the elimination (with its pivot threshold) otherwise. */
  function MinorDet(m: Matrix, eps: real): real
    requires IsSquare(m)
  {
    if |m| == 2 then Det2x2(m) else Elimination(m, eps).det
  }

  /** `C[i][j] = s * dM` with `s = ((i + j) % 2 === 0) ? 1 : -1`. */
  function CofactorValue(A: Matrix, i: nat, j: nat, eps: real): real
    requires IsSquare(A) && i < |A| && j < |A|
  {
    Sign(i + j) * MinorDet(Minor(A, i, j), eps)
  }

  /** The cofactor matrix C the loops fill. */
  function CofactorTableOf(A: Matrix, eps: real): (C: Matrix)
    requires IsSquare(A)
    ensures IsSquare(C) && |C| == |A|
    ensures forall i, j :: 0 <= i < |A| && 0 <= j < |A| ==> C[i][j] == CofactorValue(A, i, j, eps)
  {
    seq(|A|, i requires 0 <= i < |A| => seq(|A|, j requires 0 <= j < |A| => CofactorValue(A, i, j, eps)))
  }

  /** The step "Cofactor C_ij", which shows the minor M_ij and the entry of C just
      written. */
  function CofactorStep(A: Matrix, C: Matrix, i: nat, j: nat): Step
    requires IsSquare(A) && IsSquare(C) && |C| == |A| && i < |A| && j < |A|
  {
    Shown(CofactorOf(i, j, C[i][j]), Minor(A, i, j))
  }

  /** The steps of row i for the columns before j. */
  function RowSteps(A: Matrix, C: Matrix, i: nat, j: nat): (s: seq<Step>)
    requires IsSquare(A) && IsSquare(C) && |C| == |A| && i < |A| && j <= |A|
    ensures |s| == j
    ensures forall c :: 0 <= c < j ==> s[c] == CofactorStep(A, C, i, c)
  {
    seq(j, c requires 0 <= c < j => CofactorStep(A, C, i, c))
  }

  /** The steps of the rows before i. */
  function TableSteps(A: Matrix, C: Matrix, i: nat): seq<Step>
    requires IsSquare(A) && IsSquare(C) && |C| == |A| && i <= |A|
  {
    if i == 0 then [] else TableSteps(A, C, i - 1) + RowSteps(A, C, i - 1, |A|)
  }

  /** What `cofactorSteps` returns: `{C, Adj, steps}`. */
  datatype CofactorInfo = CofactorInfo(C: Matrix, Adj: Matrix, steps: seq<Step>)

  function CofactorStepsOf(A: Matrix, eps: real): CofactorInfo
    requires IsSquare(A)
  {
    var C := CofactorTableOf(A, eps);
    var Adj := Transpose(C);
    CofactorInfo(C, Adj, TableSteps(A, C, |A|) + [Shown(CofactorTable, C), Shown(AdjugateTable, Adj)])
  }

  /** The sub-determinant as the source computes it, calling the elimination method. */
  method MinorDeterminant(m: Matrix, eps: real) returns (dM: real)
    requires IsSquare(m)
    ensures dM == MinorDet(m, eps)
  {
    if |m| == 2 {
      dM := Det2x2(m);
    } else {
      var stepsOfMinor;
      dM, stepsOfMinor := DetEliminationWithSteps(m, eps);
    }
  }

  /** The inner loop `for (j = 0; j < n; j++)` for row i: the entries of row i of C
      and the step recorded for each. */
  method FillRow(A: Matrix, i: nat, eps: real) returns (row: seq<real>, rowSteps: seq<Step>)
    requires IsSquare(A) && i < |A|
    ensures row == CofactorTableOf(A, eps)[i]
    ensures rowSteps == RowSteps(A, CofactorTableOf(A, eps), i, |A|)
  {
    var n := |A|;
    ghost var table := CofactorTableOf(A, eps);
    row := seq(n, _ => 0.0);
    rowSteps := [];
    for j := 0 to n
      invariant |row| == n
      invariant forall c :: 0 <= c < j ==> row[c] == table[i][c]
      invariant rowSteps == RowSteps(A, table, i, j)
    {
      var Mij := Minor(A, i, j);
      var dM := MinorDeterminant(Mij, eps);
      var s := if (i + j) % 2 == 0 then 1.0 else -1.0;
      assert s * dM == table[i][j];
      row := row[j := s * dM];
      rowSteps := rowSteps + [Shown(CofactorOf(i, j, row[j]), Mij)];
    }
    assert row == table[i];
  }

  /** `cofactorSteps(A)`: C starts as an n x n table of zeros and is filled row by
      row; then the steps showing C and its transpose, the adjugate. */
  method CofactorSteps(A: Matrix, eps: real) returns (r: CofactorInfo)
    requires IsSquare(A)
    ensures r == CofactorStepsOf(A, eps)
  {
    var n := |A|;
    var C := new seq<real>[n](_ => seq(n, _ => 0.0));
    ghost var table := CofactorTableOf(A, eps);
    var steps: seq<Step> := [];
    for i := 0 to n
      invariant forall k :: 0 <= k < i ==> C[k] == table[k]
      invariant steps == TableSteps(A, table, i)
    {
      var row, rowSteps := FillRow(A, i, eps);
      C[i] := row;
      steps := steps + rowSteps;
    }
    var T := C[..];
    assert forall k :: 0 <= k < n ==> T[k] == table[k];
    assert T == table;
    var Adj := Transpose(T);
    r := CofactorInfo(T, Adj, steps + [Shown(CofactorTable, T), Shown(AdjugateTable, Adj)]);
  }

  /** Where row r of the table starts: r * n, counted up row by row. */
  function Offset(r: nat, n: nat): nat
  {
    if r == 0 then 0 else Offset(r - 1, n) + n
  }

  lemma {:induction false} OffsetIsProduct(r: nat, n: nat)
    ensures Offset(r, n) == r * n
  {
    if r > 0 {
      OffsetIsProduct(r - 1, n);
      assert (r - 1) * n + n == r * n;
    }
  }

  lemma {:induction false} OffsetGrows(r: nat, i: nat, n: nat)
    requires r < i
    ensures Offset(r, n) + n <= Offset(i, n)
    decreases i
  {
    if r < i - 1 {
      OffsetGrows(r, i - 1, n);
    }
  }

  lemma {:induction false} TableStepsLength(A: Matrix, C: Matrix, i: nat)
    requires IsSquare(A) && IsSquare(C) && |C| == |A| && i <= |A|
    ensures |TableSteps(A, C, i)| == Offset(i, |A|)
  {
    if i > 0 {
      TableStepsLength(A, C, i - 1);
    }
  }

  /** The rows before i - 1 keep their positions when row i - 1 is appended. */
  lemma {:induction false} TableStepsPrefix(A: Matrix, C: Matrix, i: nat, k: nat)
    requires IsSquare(A) && IsSquare(C) && |C| == |A| && 0 < i <= |A|
    requires k < |TableSteps(A, C, i - 1)|
    ensures k < |TableSteps(A, C, i)| && TableSteps(A, C, i)[k] == TableSteps(A, C, i - 1)[k]
  {
  }

  /** Row i - 1 occupies the positions from Offset(i - 1, n) on. */
  lemma {:induction false} TableStepsLastRow(A: Matrix, C: Matrix, i: nat, c: nat)
    requires IsSquare(A) && IsSquare(C) && |C| == |A| && 0 < i <= |A| && c < |A|
    ensures Offset(i - 1, |A|) + c < |TableSteps(A, C, i)|
    ensures TableSteps(A, C, i)[Offset(i - 1, |A|) + c] == CofactorStep(A, C, i - 1, c)
  {
    TableStepsLength(A, C, i - 1);
  }

  /** Entry (r, c) of the table sits at position Offset(r, n) + c. */
  lemma {:induction false} TableStepAt(A: Matrix, C: Matrix, i: nat, r: nat, c: nat)
    requires IsSquare(A) && IsSquare(C) && |C| == |A| && r < i <= |A| && c < |A|
    ensures Offset(r, |A|) + c < |TableSteps(A, C, i)|
    ensures TableSteps(A, C, i)[Offset(r, |A|) + c] == CofactorStep(A, C, r, c)
  {
    if r == i - 1 {
      TableStepsLastRow(A, C, i, c);
    } else {
      TableStepAt(A, C, i - 1, r, c);
      TableStepsPrefix(A, C, i, Offset(r, |A|) + c);
    }
  }

  /** `cofactorSteps` records n * n cofactor steps in row order (entry (i, j) at
      position Offset(i, n) + j = i * n + j), each showing its minor M_ij and the value
      C_ij = (-1)^(i+j) det(M_ij); then the cofactor matrix C and last the adjugate,
      with Adj[i][j] = C[j][i]. */
  lemma {:induction false} CofactorStepsShape(A: Matrix, eps: real)
    requires IsSquare(A)
    ensures |CofactorStepsOf(A, eps).steps| == Offset(|A|, |A|) + 2
    ensures forall i: nat :: i < |A| ==> Offset(i, |A|) + |A| <= Offset(|A|, |A|)
    ensures forall i: nat, j: nat :: i < |A| && j < |A| ==>
      CofactorStepsOf(A, eps).steps[Offset(i, |A|) + j]
      == Shown(CofactorOf(i, j, CofactorStepsOf(A, eps).C[i][j]), Minor(A, i, j))
    ensures var r := CofactorStepsOf(A, eps);
      forall i, j :: 0 <= i < |A| && 0 <= j < |A| ==>
        r.C[i][j] == Sign(i + j) * MinorDet(Minor(A, i, j), eps)
    ensures var r := CofactorStepsOf(A, eps);
      && r.steps[Offset(|A|, |A|)] == Shown(CofactorTable, r.C)
      && r.steps[Offset(|A|, |A|) + 1] == Shown(AdjugateTable, r.Adj)
    ensures var r := CofactorStepsOf(A, eps);
      && IsSquare(r.Adj) && |r.Adj| == |A|
      && forall i, j :: 0 <= i < |A| && 0 <= j < |A| ==> r.Adj[i][j] == r.C[j][i]
  {
    var C := CofactorTableOf(A, eps);
    TableStepsLength(A, C, |A|);
    var r := CofactorStepsOf(A, eps);
    assert r.C == C && r.steps == TableSteps(A, C, |A|) + [Shown(CofactorTable, C), Shown(AdjugateTable, r.Adj)];
    forall i: nat | i < |A|
      ensures Offset(i, |A|) + |A| <= Offset(|A|, |A|)
    {
      OffsetGrows(i, |A|, |A|);
    }
    forall i: nat, j: nat | i < |A| && j < |A|
      ensures CofactorStepsOf(A, eps).steps[Offset(i, |A|) + j]
        == Shown(CofactorOf(i, j, CofactorStepsOf(A, eps).C[i][j]), Minor(A, i, j))
    {
      TableStepAt(A, C, |A|, i, j);
    }
  }

  /** A 1 x 1 minor goes through the elimination: its entry, or 0 when the entry is
      below the pivot threshold. */
  lemma {:induction false} MinorDet1x1(m: Matrix, eps: real)
    requires IsSquare(m) && |m| == 1
    ensures MinorDet(m, eps) == if Negligible(m[0][0], eps) then 0.0 else m[0][0]
  {
    Elimination1x1(m, eps);
  }

  /** With exact pivot tests each sub-determinant is the determinant of the minor. */
  lemma {:induction false} ExactMinorDet(m: Matrix)
    requires IsSquare(m)
    ensures MinorDet(m, 0.0) == Det(m)
  {
    if |m| == 2 {
      Det2x2IsDet(m);
    } else {
      ExactEliminationDet(m);
    }
  }

  /** With exact pivot tests `cofactorSteps` computes the cofactor matrix and the
      adjugate adj(A) = C^T. */
  lemma {:induction false} ExactCofactors(A: Matrix)
    requires IsSquare(A)
    ensures CofactorStepsOf(A, 0.0).C == Expansion.CofactorMatrix(A)
    ensures CofactorStepsOf(A, 0.0).Adj == Expansion.Adjugate(A)
  {
    var C := CofactorTableOf(A, 0.0);
    var E := Expansion.CofactorMatrix(A);
    forall i, j | 0 <= i < |A| && 0 <= j < |A|
      ensures C[i][j] == E[i][j]
    {
      ExactMinorDet(Minor(A, i, j));
      CofactorSign(A, i, j);
    }
    SameEntries(C, E);
  }

  /** `metodoAdjunta(A, d)`: the adjugate step and the step showing adj / d. */
  function AdjugateMethodOf(A: Matrix, d: real, eps: real): seq<Step>
    requires IsSquare(A) && d != 0.0
  {
    var Adj := CofactorStepsOf(A, eps).Adj;
    [Shown(AdjugateTable, Adj), Shown(Inverse, DivideAll(Adj, d))]
  }

  /** `metodoAdjunta(A, d)`, which runs `cofactorSteps` for the adjugate. */
  method AdjugateMethod(A: Matrix, d: real, eps: real) returns (steps: seq<Step>)
    requires IsSquare(A) && d != 0.0
    ensures steps == AdjugateMethodOf(A, d, eps)
  {
    var info := CofactorSteps(A, eps);
    var inv := DivideAll(info.Adj, d);
    steps := [Shown(AdjugateTable, info.Adj), Shown(Inverse, inv)];
  }

  /** With exact pivot tests and d = det(A) non-zero, the matrix `metodoAdjunta`
      shows is the two-sided inverse of A, and Gauss-Jordan on A ends with the same
      matrix. */
  lemma {:induction false} AdjugateMethodInverse(A: Matrix, d: real)
    requires IsSquare(A) && d == Det(A) && d != 0.0
    ensures var inv := DivideAll(Expansion.Adjugate(A), d);
      && AdjugateMethodOf(A, d, 0.0)[1] == Shown(Inverse, inv)
      && IsSquare(inv) && |inv| == |A|
      && Mul(A, inv) == Identity(|A|) && Mul(inv, A) == Identity(|A|)
      && GaussJordanElimination.GaussJordan(A, 0.0).Inverted?
      && GaussJordanElimination.GaussJordan(A, 0.0).inv == inv
  {
    ExactCofactors(A);
    GaussJordanTheory.ExactGaussJordan(A);
  }
}
