/** Matrices as sequences of rows, with the structural helpers the engine uses
    (`minor`, row swaps, row operations) and the matrix product. */
module Matrices {
  import opened Sums

  type Matrix = seq<seq<real>>

  /** n rows of length n */
  predicate IsSquare(M: Matrix)
  {
    forall i :: 0 <= i < |M| ==> |M[i]| == |M|
  }

  /** every row has length cols */
  predicate IsRect(M: Matrix, cols: nat)
  {
    forall i :: 0 <= i < |M| ==> |M[i]| == cols
  }

  /** The k-th index of 0, 1, 2, ... once index j is taken out. */
  function Skip(k: nat, j: nat): nat
  {
    if k < j then k else k + 1
  }

  /** `minor(M, i, j)`: M with row i and column j deleted (the source filters the rows
      by index and then each row's entries by index). */
  function Minor(M: Matrix, i: nat, j: nat): (m: Matrix)
    requires IsSquare(M) && i < |M| && j < |M|
    ensures IsSquare(m) && |m| == |M| - 1
    ensures forall r, c :: 0 <= r < |m| && 0 <= c < |m| ==> m[r][c] == M[Skip(r, i)][Skip(c, j)]
  {
    seq(|M| - 1, r requires 0 <= r < |M| - 1 =>
      seq(|M| - 1, c requires 0 <= c < |M| - 1 => M[Skip(r, i)][Skip(c, j)]))
  }

  /** Two matrices of the same shape with the same entries are equal. */
  lemma {:induction false} SameEntries(M: Matrix, N: Matrix)
    requires |M| == |N|
    requires forall r :: 0 <= r < |M| ==> |M[r]| == |N[r]|
    requires forall r, c :: 0 <= r < |M| && 0 <= c < |M[r]| ==> M[r][c] == N[r][c]
    ensures M == N
  {
    forall r | 0 <= r < |M|
      ensures M[r] == N[r]
    {
    }
  }

  /** The rows a and b exchanged (`[M[a], M[b]] = [M[b], M[a]]`). */
  function Swap(M: Matrix, a: nat, b: nat): (S: Matrix)
    requires a < |M| && b < |M|
    ensures |S| == |M|
    ensures S[a] == M[b] && S[b] == M[a]
    ensures forall r :: 0 <= r < |M| && r != a && r != b ==> S[r] == M[r]
  {
    M[a := M[b]][b := M[a]]
  }

  /** Row r replaced by row r plus c times row s. */
  function AddRow(M: Matrix, r: nat, s: nat, c: real): (N: Matrix)
    requires r < |M| && s < |M| && |M[r]| == |M[s]|
    ensures |N| == |M| && |N[r]| == |M[r]|
    ensures forall k :: 0 <= k < |M[r]| ==> N[r][k] == M[r][k] + c * M[s][k]
    ensures forall i :: 0 <= i < |M| && i != r ==> N[i] == M[i]
  {
    M[r := seq(|M[r]|, k requires 0 <= k < |M[r]| => M[r][k] + c * M[s][k])]
  }

  /** Row r multiplied by c. */
  function ScaleRow(M: Matrix, r: nat, c: real): (N: Matrix)
    requires r < |M|
    ensures |N| == |M| && |N[r]| == |M[r]|
    ensures forall k :: 0 <= k < |M[r]| ==> N[r][k] == c * M[r][k]
    ensures forall i :: 0 <= i < |M| && i != r ==> N[i] == M[i]
  {
    M[r := seq(|M[r]|, k requires 0 <= k < |M[r]| => c * M[r][k])]
  }

  function Identity(n: nat): (I: Matrix)
    ensures IsSquare(I) && |I| == n
    ensures forall i, j :: 0 <= i < n && 0 <= j < n ==> I[i][j] == if i == j then 1.0 else 0.0
  {
    seq(n, i requires 0 <= i < n => seq(n, j requires 0 <= j < n => if i == j then 1.0 else 0.0))
  }

  /** Columns turned into rows (`C[0].map((_, i) => C.map(r => r[i]))`). */
  function Transpose(M: Matrix): (T: Matrix)
    requires IsSquare(M)
    ensures IsSquare(T) && |T| == |M|
    ensures forall i, j :: 0 <= i < |M| && 0 <= j < |M| ==> T[i][j] == M[j][i]
  {
    seq(|M|, i requires 0 <= i < |M| => seq(|M|, j requires 0 <= j < |M| => M[j][i]))
  }

  /** Every entry divided by d (`M.map(r => r.map(v => v / d))`). */
  function DivideAll(M: Matrix, d: real): (N: Matrix)
    requires d != 0.0
    ensures |N| == |M|
    ensures forall i :: 0 <= i < |M| ==> |N[i]| == |M[i]|
    ensures forall i, j :: 0 <= i < |M| && 0 <= j < |M[i]| ==> N[i][j] == M[i][j] / d
  {
    seq(|M|, i requires 0 <= i < |M| => seq(|M[i]|, j requires 0 <= j < |M[i]| => M[i][j] / d))
  }

  /** Entry (i, j) of the product X * Y. */
  function Dot(X: Matrix, Y: Matrix, i: nat, j: nat): real
    requires IsSquare(X) && IsSquare(Y) && |X| == |Y| && i < |X| && j < |X|
  {
    Sum(|X|, (k: nat) => if k < |X| then X[i][k] * Y[k][j] else 0.0)
  }

  function Mul(X: Matrix, Y: Matrix): (P: Matrix)
    requires IsSquare(X) && IsSquare(Y) && |X| == |Y|
    ensures IsSquare(P) && |P| == |X|
    ensures forall i, j :: 0 <= i < |X| && 0 <= j < |X| ==> P[i][j] == Dot(X, Y, i, j)
  {
    seq(|X|, i requires 0 <= i < |X| => seq(|X|, j requires 0 <= j < |X| => Dot(X, Y, i, j)))
  }

  lemma {:induction false} MulIdentityLeft(M: Matrix)
    requires IsSquare(M)
    ensures Mul(Identity(|M|), M) == M
  {
    var n := |M|;
    var I := Identity(n);
    forall i, j | 0 <= i < n && 0 <= j < n
      ensures Mul(I, M)[i][j] == M[i][j]
    {
      SumSingle(n, (k: nat) => if k < n then I[i][k] * M[k][j] else 0.0, i);
    }
    SameEntries(Mul(I, M), M);
  }

  lemma {:induction false} MulIdentityRight(M: Matrix)
    requires IsSquare(M)
    ensures Mul(M, Identity(|M|)) == M
  {
    var n := |M|;
    var I := Identity(n);
    forall i, j | 0 <= i < n && 0 <= j < n
      ensures Mul(M, I)[i][j] == M[i][j]
    {
      SumSingle(n, (k: nat) => if k < n then M[i][k] * I[k][j] else 0.0, j);
    }
    SameEntries(Mul(M, I), M);
  }

  /** The term X[i][l] * Y[l][k] * Z[k][j] of both sides of associativity. */
  function Triple(X: Matrix, Y: Matrix, Z: Matrix, i: nat, j: nat, k: nat, l: nat): real
    requires IsSquare(X) && IsSquare(Y) && IsSquare(Z) && |X| == |Y| == |Z|
    requires i < |X| && j < |X|
  {
    if k < |X| && l < |X| then X[i][l] * Y[l][k] * Z[k][j] else 0.0
  }

  lemma {:induction false} MulAssocLeft(X: Matrix, Y: Matrix, Z: Matrix, i: nat, j: nat, F: (nat, nat) -> real)
    requires IsSquare(X) && IsSquare(Y) && IsSquare(Z) && |X| == |Y| == |Z|
    requires i < |X| && j < |X|
    requires forall k: nat, l: nat :: F(k, l) == Triple(X, Y, Z, i, j, k, l)
    ensures Dot(Mul(X, Y), Z, i, j) == Sum(|X|, (k: nat) => Sum(|X|, (l: nat) => F(k, l)))
  {
    var XY := Mul(X, Y);
    forall k: nat | k < |X|
      ensures XY[i][k] * Z[k][j] == Sum(|X|, (l: nat) => F(k, l))
    {
      SumScale(|X|, (l: nat) => if l < |X| then X[i][l] * Y[l][k] else 0.0, (l: nat) => F(k, l), Z[k][j]);
    }
    SumExt(|X|, (k: nat) => if k < |XY| then XY[i][k] * Z[k][j] else 0.0,
           (k: nat) => Sum(|X|, (l: nat) => F(k, l)));
  }

  lemma {:induction false} MulAssocRight(X: Matrix, Y: Matrix, Z: Matrix, i: nat, j: nat, F: (nat, nat) -> real)
    requires IsSquare(X) && IsSquare(Y) && IsSquare(Z) && |X| == |Y| == |Z|
    requires i < |X| && j < |X|
    requires forall k: nat, l: nat :: F(k, l) == Triple(X, Y, Z, i, j, k, l)
    ensures Dot(X, Mul(Y, Z), i, j) == Sum(|X|, (l: nat) => Sum(|X|, (k: nat) => F(k, l)))
  {
    var YZ := Mul(Y, Z);
    forall l: nat | l < |X|
      ensures X[i][l] * YZ[l][j] == Sum(|X|, (k: nat) => F(k, l))
    {
      SumScale(|X|, (k: nat) => if k < |Y| then Y[l][k] * Z[k][j] else 0.0, (k: nat) => F(k, l), X[i][l]);
    }
    SumExt(|X|, (l: nat) => if l < |X| then X[i][l] * YZ[l][j] else 0.0,
           (l: nat) => Sum(|X|, (k: nat) => F(k, l)));
  }

  lemma {:induction false} MulAssocEntry(X: Matrix, Y: Matrix, Z: Matrix, i: nat, j: nat)
    requires IsSquare(X) && IsSquare(Y) && IsSquare(Z) && |X| == |Y| == |Z|
    requires i < |X| && j < |X|
    ensures Mul(Mul(X, Y), Z)[i][j] == Mul(X, Mul(Y, Z))[i][j]
  {
    var F: (nat, nat) -> real := (k: nat, l: nat) => Triple(X, Y, Z, i, j, k, l);
    MulAssocLeft(X, Y, Z, i, j, F);
    MulAssocRight(X, Y, Z, i, j, F);
    SumExchange(|X|, |X|, F);
  }

  /** The matrix product is associative. */
  lemma {:induction false} MulAssoc(X: Matrix, Y: Matrix, Z: Matrix)
    requires IsSquare(X) && IsSquare(Y) && IsSquare(Z) && |X| == |Y| == |Z|
    ensures Mul(Mul(X, Y), Z) == Mul(X, Mul(Y, Z))
  {
    forall i, j | 0 <= i < |X| && 0 <= j < |X|
      ensures Mul(Mul(X, Y), Z)[i][j] == Mul(X, Mul(Y, Z))[i][j]
    {
      MulAssocEntry(X, Y, Z, i, j);
    }
    SameEntries(Mul(Mul(X, Y), Z), Mul(X, Mul(Y, Z)));
  }

  /** A left and a right inverse of the same matrix coincide. */
  lemma {:induction false} InverseUnique(A: Matrix, L: Matrix, R: Matrix)
    requires IsSquare(A) && IsSquare(L) && IsSquare(R) && |A| == |L| == |R|
    requires Mul(L, A) == Identity(|A|) && Mul(A, R) == Identity(|A|)
    ensures L == R
  {
    calc {
      L;
      { MulIdentityRight(L); }
      Mul(L, Identity(|A|));
      { MulAssoc(L, A, R); }
      Mul(Identity(|A|), R);
      { MulIdentityLeft(R); }
      R;
    }
  }
}
