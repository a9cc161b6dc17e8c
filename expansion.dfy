/** Cofactor expansion along any row, the cofactor matrix and the adjugate, and the
    identity A * adj(A) = det(A) * I behind `inv = adj(A) / det(A)`. */
module Expansion {
  import opened Sums
  import opened Matrices
  import opened Determinant

  /** Row i moved to the top, the rows above it shifted down by one. */
  function MoveUp(M: Matrix, i: nat): (N: Matrix)
    requires i < |M|
    ensures |N| == |M| && N[0] == M[i]
    ensures forall r :: 1 <= r <= i ==> N[r] == M[r - 1]
    ensures forall r :: i < r < |M| ==> N[r] == M[r]
  {
    seq(|M|, r requires 0 <= r < |M| => if r == 0 then M[i] else if r <= i then M[r - 1] else M[r])
  }

  lemma {:induction false} MoveUpSquare(M: Matrix, i: nat)
    requires IsSquare(M) && i < |M|
    ensures IsSquare(MoveUp(M, i))
  {
    var N := MoveUp(M, i);
    forall r | 0 <= r < |N|
      ensures |N[r]| == |N|
    {
      if r == 0 {
      } else if r <= i {
        assert N[r] == M[r - 1];
      } else {
        assert N[r] == M[r];
      }
    }
  }

  /** Moving row i to the top is i adjacent swaps. */
  lemma {:induction false} MoveUpOfSwap(M: Matrix, i: nat)
    requires IsSquare(M) && 1 <= i < |M|
    ensures MoveUp(Swap(M, i - 1, i), i - 1) == MoveUp(M, i)
  {
    var L := MoveUp(Swap(M, i - 1, i), i - 1);
    var R := MoveUp(M, i);
    forall r | 0 <= r < |M|
      ensures L[r] == R[r]
    {
      if r == 0 {
      } else if r < i {
        assert L[r] == M[r - 1];
      } else if r == i {
        assert L[r] == M[i - 1];
      } else {
        assert L[r] == M[r];
      }
    }
  }

  lemma {:induction false} SignedNegated(i: nat, d: real)
    requires i >= 1
    ensures Signed(i - 1, - d) == Signed(i, d)
  {
  }

  /** Moving row i to the top multiplies the determinant by (-1)^i. */
  lemma {:induction false} MoveUpDet(M: Matrix, i: nat)
    requires IsSquare(M) && i < |M|
    ensures IsSquare(MoveUp(M, i))
    ensures Det(MoveUp(M, i)) == Signed(i, Det(M))
    decreases i
  {
    MoveUpSquare(M, i);
    if i == 0 {
      assert MoveUp(M, 0) == M;
    } else {
      var S := Swap(M, i - 1, i);
      SwapRows(M, i - 1, i);
      MoveUpDet(S, i - 1);
      MoveUpOfSwap(M, i);
      SignedNegated(i, Det(M));
    }
  }

  /** Deleting the top row of MoveUp(M, i) deletes row i of M. */
  lemma {:induction false} MinorOfMoveUp(M: Matrix, i: nat, j: nat)
    requires IsSquare(M) && i < |M| && j < |M|
    ensures IsSquare(MoveUp(M, i))
    ensures Minor(MoveUp(M, i), 0, j) == Minor(M, i, j)
  {
    MoveUpSquare(M, i);
    var N := MoveUp(M, i);
    var L := Minor(N, 0, j);
    var R := Minor(M, i, j);
    forall r, c | 0 <= r < |L| && 0 <= c < |L|
      ensures L[r][c] == R[r][c]
    {
      if r < i {
        assert N[r + 1] == M[r];
      } else {
        assert N[r + 1] == M[r + 1];
      }
    }
    SameEntries(L, R);
  }

  lemma {:induction false} SignedShift(i: nat, j: nat, x: real, d: real)
    ensures x * Signed(i + j, d) == Sign(i) * (x * Signed(j, d))
  {
  }

  lemma {:induction false} TermOfMoveUp(M: Matrix, i: nat, j: nat)
    requires IsSquare(M) && i < |M| && j < |M|
    ensures IsSquare(MoveUp(M, i))
    ensures Term(M, i, j) == Sign(i) * Term(MoveUp(M, i), 0, j)
  {
    MinorOfMoveUp(M, i, j);
    SignedShift(i, j, M[i][j], Det(Minor(M, i, j)));
  }

  lemma {:induction false} RowSumOfMoveUp(M: Matrix, i: nat, k: nat)
    requires IsSquare(M) && i < |M| && k <= |M|
    ensures IsSquare(MoveUp(M, i))
    ensures RowSum(M, i, k) == Sign(i) * RowSum(MoveUp(M, i), 0, k)
  {
    MoveUpSquare(M, i);
    if k > 0 {
      RowSumOfMoveUp(M, i, k - 1);
      TermOfMoveUp(M, i, k - 1);
      Distribute(RowSum(MoveUp(M, i), 0, k - 1), Term(MoveUp(M, i), 0, k - 1), Sign(i));
    }
  }

  lemma {:induction false} SignTwice(i: nat, d: real, e: real, x: real)
    requires e == Signed(i, d) && x == Sign(i) * e
    ensures x == d
  {
  }

  /** Laplace: the expansion along any row i is the determinant. */
  lemma {:induction false} Laplace(M: Matrix, i: nat)
    requires IsSquare(M) && i < |M|
    ensures RowExpansion(M, i) == Det(M)
  {
    RowSumOfMoveUp(M, i, |M|);
    MoveUpDet(M, i);
    DetIsRowSum(MoveUp(M, i));
    SignTwice(i, Det(M), Det(MoveUp(M, i)), RowExpansion(M, i));
  }

  /** The cofactor matrix C[i][j] = (-1)^(i+j) det(minor(A, i, j)). */
  function CofactorMatrix(A: Matrix): (C: Matrix)
    requires IsSquare(A)
    ensures IsSquare(C) && |C| == |A|
    ensures forall i, j :: 0 <= i < |A| && 0 <= j < |A| ==> C[i][j] == Cofactor(A, i, j)
  {
    seq(|A|, i requires 0 <= i < |A| => seq(|A|, j requires 0 <= j < |A| => Cofactor(A, i, j)))
  }

  /** adj(A) = C transposed. */
  function Adjugate(A: Matrix): (Adj: Matrix)
    requires IsSquare(A)
    ensures IsSquare(Adj) && |Adj| == |A|
    ensures forall i, j :: 0 <= i < |A| && 0 <= j < |A| ==> Adj[i][j] == Cofactor(A, j, i)
  {
    Transpose(CofactorMatrix(A))
  }

  /** d on the diagonal, 0 elsewhere. */
  function ScalarMatrix(n: nat, d: real): (D: Matrix)
    ensures IsSquare(D) && |D| == n
    ensures forall i, j :: 0 <= i < n && 0 <= j < n ==> D[i][j] == if i == j then d else 0.0
  {
    seq(n, i requires 0 <= i < n => seq(n, j requires 0 <= j < n => if i == j then d else 0.0))
  }

  /** A sum whose terms are those of the expansion along row k is that expansion. */
  lemma {:induction false} SumIsRowSum(B: Matrix, k: nat, m: nat, f: nat -> real)
    requires IsSquare(B) && k < |B| && m <= |B|
    requires forall l: nat :: l < |B| ==> f(l) == Term(B, k, l)
    ensures Sum(m, f) == RowSum(B, k, m)
  {
    if m > 0 {
      SumIsRowSum(B, k, m - 1, f);
    }
  }

  /** Entry (i, k) of A * adj(A) is the expansion along row k of A with row k
      replaced by row i. */
  lemma {:induction false} AdjugateEntry(A: Matrix, i: nat, k: nat)
    requires IsSquare(A) && i < |A| && k < |A|
    ensures IsSquare(A[k := A[i]])
    ensures Mul(A, Adjugate(A))[i][k] == RowExpansion(A[k := A[i]], k)
  {
    var n := |A|;
    var Adj := Adjugate(A);
    var B := A[k := A[i]];
    var f := (l: nat) => if l < n then A[i][l] * Adj[l][k] else 0.0;
    forall l: nat | l < n
      ensures f(l) == Term(B, k, l)
    {
      TermOfRowUpdate(A, k, A[i], l);
    }
    SumIsRowSum(B, k, n, f);
  }

  /** A * adj(A) = det(A) * I: the diagonal is the expansion along row i, and off the
      diagonal it is the expansion of a matrix with two equal rows. */
  lemma {:induction false} AdjugateIdentity(A: Matrix)
    requires IsSquare(A)
    ensures Mul(A, Adjugate(A)) == ScalarMatrix(|A|, Det(A))
  {
    var n := |A|;
    var P := Mul(A, Adjugate(A));
    var D := ScalarMatrix(n, Det(A));
    forall i, k | 0 <= i < n && 0 <= k < n
      ensures P[i][k] == D[i][k]
    {
      AdjugateEntry(A, i, k);
      var B := A[k := A[i]];
      Laplace(B, k);
      if i == k {
        assert B == A;
      } else {
        EqualRows(B, i, k);
      }
    }
    SameEntries(P, D);
  }

  lemma {:induction false} DivideEntry(x: real, y: real, d: real)
    requires d != 0.0
    ensures x * (y / d) == (1.0 / d) * (x * y)
  {
  }

  /** Dividing the right factor by d divides each entry of the product by d. */
  lemma {:induction false} MulDivided(A: Matrix, Y: Matrix, d: real, i: nat, k: nat)
    requires IsSquare(A) && IsSquare(Y) && |Y| == |A| && d != 0.0 && i < |A| && k < |A|
    ensures IsSquare(DivideAll(Y, d))
    ensures Mul(A, DivideAll(Y, d))[i][k] == (1.0 / d) * Mul(A, Y)[i][k]
  {
    var n := |A|;
    var X := DivideAll(Y, d);
    forall l: nat | l < n
      ensures (if l < n then A[i][l] * X[l][k] else 0.0) == (1.0 / d) * (if l < n then A[i][l] * Y[l][k] else 0.0)
    {
      DivideEntry(A[i][l], Y[l][k], d);
    }
    SumScale(n, (l: nat) => if l < n then A[i][l] * Y[l][k] else 0.0,
             (l: nat) => if l < n then A[i][l] * X[l][k] else 0.0, 1.0 / d);
  }

  lemma {:induction false} OverItself(d: real)
    requires d != 0.0
    ensures (1.0 / d) * d == 1.0 && (1.0 / d) * 0.0 == 0.0
  {
  }

  /** With d = det(A) non-zero, adj(A) / d is a right inverse of A. */
  lemma {:induction false} AdjugateInverse(A: Matrix, d: real)
    requires IsSquare(A) && d == Det(A) && d != 0.0
    ensures IsSquare(DivideAll(Adjugate(A), d))
    ensures Mul(A, DivideAll(Adjugate(A), d)) == Identity(|A|)
  {
    var n := |A|;
    var Adj := Adjugate(A);
    var X := DivideAll(Adj, d);
    assert IsSquare(X);
    AdjugateIdentity(A);
    forall i, k | 0 <= i < n && 0 <= k < n
      ensures Mul(A, X)[i][k] == Identity(n)[i][k]
    {
      MulDivided(A, Adj, d, i, k);
      OverItself(d);
    }
    SameEntries(Mul(A, X), Identity(n));
  }
}
