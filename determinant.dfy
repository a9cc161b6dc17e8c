/** The determinant as first-row cofactor expansion, and the facts the engine's
    strategies rely on: row swaps flip the sign, adding a multiple of one row to
    another changes nothing, Laplace expansion along any row, and the adjugate
    identity A * adj(A) = det(A) * I. */
module Determinant {
  import opened Sums
  import opened Matrices

  /** (-1)^k, the cofactor sign `(k % 2 === 0) ? 1 : -1` */
  function Sign(k: nat): real
  {
    if k % 2 == 0 then 1.0 else -1.0
  }

  lemma {:induction false} SignAdd(a: nat, b: nat)
    ensures Sign(a + b) == Sign(a) * Sign(b)
  {
  }

  /** x with the sign (-1)^k */
  function Signed(k: nat, x: real): real
  {
    if k % 2 == 0 then x else - x
  }

  /** The j-th term a_ij * C_ij of the expansion along row i (0 outside the matrix). */
  function Term(M: Matrix, i: nat, j: nat): real
    requires IsSquare(M)
    decreases |M|, 1
  {
    if i < |M| && j < |M| then M[i][j] * Cofactor(M, i, j) else 0.0
  }

  /** The first k terms of the expansion along row i. */
  function RowSum(M: Matrix, i: nat, k: nat): real
    requires IsSquare(M)
    decreases |M|, 2, k
  {
    if k == 0 then 0.0 else RowSum(M, i, k - 1) + Term(M, i, k - 1)
  }

  /** sum over j of a_ij * C_ij */
  function RowExpansion(M: Matrix, i: nat): real
    requires IsSquare(M) && i < |M|
    decreases |M|, 3
  {
    RowSum(M, i, |M|)
  }

  /** The determinant, defined by expansion along the first row. */
  function Det(M: Matrix): real
    requires IsSquare(M)
    decreases |M|, 4
  {
    if |M| == 0 then 1.0 else RowExpansion(M, 0)
  }

  lemma {:induction false} RowSumIsSum(M: Matrix, i: nat, k: nat)
    requires IsSquare(M)
    ensures RowSum(M, i, k) == Sum(k, (j: nat) => Term(M, i, j))
  {
    if k > 0 {
      RowSumIsSum(M, i, k - 1);
    }
  }

  lemma {:induction false} DetIsRowSum(M: Matrix)
    requires IsSquare(M) && |M| >= 1
    ensures Det(M) == RowSum(M, 0, |M|)
  {
  }

  lemma {:induction false} DetFromRowSums(M: Matrix, N: Matrix, c: real)
    requires IsSquare(M) && IsSquare(N) && |N| == |M| >= 1
    requires RowSum(N, 0, |M|) == c * RowSum(M, 0, |M|)
    ensures Det(N) == c * Det(M)
  {
    DetIsRowSum(M);
    DetIsRowSum(N);
  }

  /** The determinant of a non-empty matrix as the sum of its first-row terms. */
  lemma {:induction false} DetAsSum(M: Matrix)
    requires IsSquare(M) && |M| >= 1
    ensures Det(M) == Sum(|M|, (j: nat) => Term(M, 0, j))
  {
    RowSumIsSum(M, 0, |M|);
  }

  /** The expansion along row i as a sum. */
  lemma {:induction false} RowExpansionIsSum(M: Matrix, i: nat)
    requires IsSquare(M) && i < |M|
    ensures RowExpansion(M, i) == Sum(|M|, (j: nat) => Term(M, i, j))
  {
    RowSumIsSum(M, i, |M|);
  }

  /** C_ij = (-1)^(i+j) * det(minor(M, i, j)) */
  function Cofactor(M: Matrix, i: nat, j: nat): real
    requires IsSquare(M) && i < |M| && j < |M|
    decreases |M|, 0
  {
    Signed(i + j, Det(Minor(M, i, j)))
  }

  lemma {:induction false} CofactorSign(M: Matrix, i: nat, j: nat)
    requires IsSquare(M) && i < |M| && j < |M|
    ensures Cofactor(M, i, j) == Sign(i + j) * Det(Minor(M, i, j))
  {
  }

  /** The 1 x 1 and 2 x 2 determinants in closed form. */
  lemma {:induction false} Det1x1(M: Matrix)
    requires IsSquare(M) && |M| == 1
    ensures Det(M) == M[0][0]
  {
    assert Det(Minor(M, 0, 0)) == 1.0;
    assert Term(M, 0, 0) == M[0][0];
    assert RowSum(M, 0, 1) == RowSum(M, 0, 0) + Term(M, 0, 0);
  }

  lemma {:induction false} DetOf2x2(M: Matrix)
    requires IsSquare(M) && |M| == 2
    ensures Det(M) == M[0][0] * M[1][1] - M[0][1] * M[1][0]
  {
    Det1x1(Minor(M, 0, 0));
    Det1x1(Minor(M, 0, 1));
    assert Term(M, 0, 0) == M[0][0] * M[1][1];
    assert Term(M, 0, 1) == - M[0][1] * M[1][0];
    assert RowSum(M, 0, 2) == RowSum(M, 0, 1) + Term(M, 0, 1);
    assert RowSum(M, 0, 1) == RowSum(M, 0, 0) + Term(M, 0, 0);
  }

  // ---------------------------------------------------------------------------
  // Entries of the first row do not reach the cofactors of the first row.

  lemma {:induction false} MinorOfRowUpdate(M: Matrix, i: nat, x: seq<real>, j: nat)
    requires IsSquare(M) && i < |M| && j < |M| && |x| == |M|
    ensures IsSquare(M[i := x])
    ensures Minor(M[i := x], i, j) == Minor(M, i, j)
  {
    SameEntries(Minor(M[i := x], i, j), Minor(M, i, j));
  }

  lemma {:induction false} CofactorOfRowUpdate(M: Matrix, i: nat, x: seq<real>, j: nat)
    requires IsSquare(M) && i < |M| && j < |M| && |x| == |M|
    ensures IsSquare(M[i := x])
    ensures Cofactor(M[i := x], i, j) == Cofactor(M, i, j)
  {
    MinorOfRowUpdate(M, i, x, j);
  }

  // ---------------------------------------------------------------------------
  // A zero column, and a first column that is zero below the diagonal.

  lemma {:induction false} ZeroColumn(M: Matrix, c: nat)
    requires IsSquare(M) && c < |M|
    requires forall r :: 0 <= r < |M| ==> M[r][c] == 0.0
    ensures Det(M) == 0.0
    decreases |M|
  {
    forall j: nat | j < |M|
      ensures Term(M, 0, j) == 0.0
    {
      if j != c {
        var m := Minor(M, 0, j);
        var c' := if c < j then c else c - 1;
        assert Skip(c', j) == c;
        ZeroColumn(m, c');
        assert Cofactor(M, 0, j) == 0.0;
      } else {
        assert M[0][j] == 0.0;
      }
    }
    SumOfZeros(|M|, (j: nat) => Term(M, 0, j));
    RowExpansionIsSum(M, 0);
  }

  lemma {:induction false} TermBesideZeroColumn(M: Matrix, j: nat)
    requires IsSquare(M) && 1 <= j < |M|
    requires forall r :: 1 <= r < |M| ==> M[r][0] == 0.0
    ensures Term(M, 0, j) == 0.0
  {
    var m := Minor(M, 0, j);
    forall r | 0 <= r < |m|
      ensures m[r][0] == 0.0
    {
      assert m[r][0] == M[r + 1][0];
    }
    ZeroColumn(m, 0);
    assert Cofactor(M, 0, j) == 0.0;
  }

  /** With zeros under M[0][0], the determinant is M[0][0] times the rest. */
  lemma {:induction false} FirstColumnZeroBelow(M: Matrix)
    requires IsSquare(M) && |M| >= 1
    requires forall r :: 1 <= r < |M| ==> M[r][0] == 0.0
    ensures Det(M) == M[0][0] * Det(Minor(M, 0, 0))
  {
    Term00(M);
    forall j: nat | j < |M| && j != 0
      ensures Term(M, 0, j) == 0.0
    {
      TermBesideZeroColumn(M, j);
    }
    SumSingle(|M|, (j: nat) => Term(M, 0, j), 0);
    RowExpansionIsSum(M, 0);
  }

  lemma {:induction false} Term00(M: Matrix)
    requires IsSquare(M) && |M| >= 1
    ensures Term(M, 0, 0) == M[0][0] * Det(Minor(M, 0, 0))
  {
    assert Cofactor(M, 0, 0) == Signed(0, Det(Minor(M, 0, 0)));
  }

  lemma {:induction false} DetIdentity(n: nat)
    ensures Det(Identity(n)) == 1.0
  {
    if n > 0 {
      FirstColumnZeroBelow(Identity(n));
      SameEntries(Minor(Identity(n), 0, 0), Identity(n - 1));
      DetIdentity(n - 1);
    }
  }

  // ---------------------------------------------------------------------------
  // Exchanging the first two rows, through the expansion along both of them.

  /** M without its rows 0 and 1 and without its columns a and b. */
  function Pair(M: Matrix, a: nat, b: nat): (P: Matrix)
    requires IsSquare(M) && |M| >= 2 && a < |M| && b < |M| && a != b
    ensures IsSquare(P) && |P| == |M| - 2
  {
    Minor(Minor(M, 0, Min(a, b)), 0, Max(a, b) - 1)
  }

  function Min(a: nat, b: nat): nat { if a < b then a else b }

  function Max(a: nat, b: nat): nat { if a < b then b else a }

  /** Taking out column hi - 1 and then column lo is taking out lo and then hi. */
  lemma {:induction false} SkipTwice(c: nat, lo: nat, hi: nat)
    requires lo < hi
    ensures Skip(Skip(c, hi - 1), lo) == Skip(Skip(c, lo), hi)
  {
  }

  /** Deleting columns j and then k is deleting the two columns they name in M. */
  lemma {:induction false} MinorOfMinor(M: Matrix, j: nat, k: nat)
    requires IsSquare(M) && |M| >= 2 && j < |M| && k < |M| - 1
    ensures Skip(k, j) != j && Skip(k, j) < |M|
    ensures Minor(Minor(M, 0, j), 0, k) == Pair(M, j, Skip(k, j))
  {
    if k < j {
      var mm := Minor(Minor(M, 0, j), 0, k);
      var P := Minor(Minor(M, 0, k), 0, j - 1);
      forall r, c | 0 <= r < |mm| && 0 <= c < |mm|
        ensures mm[r][c] == P[r][c]
      {
        SkipTwice(c, k, j);
      }
      SameEntries(mm, P);
    } else {
      assert Skip(k, j) == k + 1 && Min(j, k + 1) == j && Max(j, k + 1) - 1 == k;
    }
  }

  /** The first row of a matrix does not reach its minors along that row. */
  lemma {:induction false} MinorBelowFirstRow(M: Matrix, N: Matrix, j: nat)
    requires IsSquare(M) && IsSquare(N) && |M| == |N| && j < |M|
    requires forall r :: 1 <= r < |M| ==> M[r] == N[r]
    ensures Minor(M, 0, j) == Minor(N, 0, j)
  {
    SameEntries(Minor(M, 0, j), Minor(N, 0, j));
  }

  /** The position of column l once column j is taken out. */
  function Pos(l: nat, j: nat): nat
    requires l != j
  {
    if l < j then l else l - 1
  }

  /** a_1l * (-1)^pos * det of the rest, for the column l beside column j */
  function Inner(M: Matrix, j: nat, l: nat): real
    requires IsSquare(M) && |M| >= 2 && j < |M|
  {
    if l < |M| && l != j then Signed(Pos(l, j), M[1][l]) * Det(Pair(M, j, l)) else 0.0
  }

  /** One term of the expansion along rows 0 and 1 together. */
  function Twice(M: Matrix, j: nat, l: nat): real
    requires IsSquare(M) && |M| >= 2
  {
    if j < |M| then Signed(j, M[0][j]) * Inner(M, j, l) else 0.0
  }

  lemma {:induction false} SignedTimes(k: nat, x: real, y: real)
    ensures Signed(k, x) * y == x * Signed(k, y) == Signed(k, x * y)
  {
  }

  lemma {:induction false} InnerTerm(M: Matrix, j: nat, k: nat)
    requires IsSquare(M) && |M| >= 2 && j < |M| && k < |M| - 1
    ensures Term(Minor(M, 0, j), 0, k) == Inner(M, j, Skip(k, j))
  {
    var m := Minor(M, 0, j);
    MinorOfMinor(M, j, k);
    assert m[0][k] == M[1][Skip(k, j)];
    assert Pos(Skip(k, j), j) == k;
    var d := Det(Pair(M, j, Skip(k, j)));
    assert Cofactor(m, 0, k) == Signed(k, d);
    SignedTimes(k, M[1][Skip(k, j)], d);
  }

  /** The terms of det(minor(M, 0, j)) along its first row, renumbered as columns of M. */
  lemma {:induction false} MinorTerms(M: Matrix, j: nat, m: Matrix, inner: nat -> real)
    requires IsSquare(M) && |M| >= 2 && j < |M| && m == Minor(M, 0, j)
    requires forall l: nat :: inner(l) == Inner(M, j, l)
    ensures Sum(|m|, (k: nat) => Term(m, 0, k)) == Sum(|m|, (k: nat) => inner(if k < j then k else k + 1))
  {
    forall k: nat | k < |m|
      ensures Term(m, 0, k) == inner(if k < j then k else k + 1)
    {
      InnerTerm(M, j, k);
    }
    SumExt(|m|, (k: nat) => Term(m, 0, k), (k: nat) => inner(if k < j then k else k + 1));
  }

  lemma {:induction false} MinorAlongSecondRow(M: Matrix, j: nat, inner: nat -> real)
    requires IsSquare(M) && |M| >= 2 && j < |M|
    requires forall l: nat :: inner(l) == Inner(M, j, l)
    ensures Det(Minor(M, 0, j)) == Sum(|M|, inner)
  {
    var m := Minor(M, 0, j);
    DetAsSum(m);
    MinorTerms(M, j, m, inner);
    SumSkip(|m|, j, inner);
    assert inner(j) == 0.0;
    SumExt(|M|, (l: nat) => if l == j then 0.0 else inner(l), inner);
  }

  lemma {:induction false} ExpandTwice(M: Matrix, j: nat, G: nat -> real)
    requires IsSquare(M) && |M| >= 2 && j < |M|
    requires forall l: nat :: G(l) == Twice(M, j, l)
    ensures Term(M, 0, j) == Sum(|M|, G)
  {
    var inner: nat -> real := (l: nat) => Inner(M, j, l);
    var d := Det(Minor(M, 0, j));
    MinorAlongSecondRow(M, j, inner);
    SumScale(|M|, inner, G, Signed(j, M[0][j]));
    assert Cofactor(M, 0, j) == Signed(j, d);
    SignedTimes(j, M[0][j], d);
  }

  lemma {:induction false} DoubleExpansion(M: Matrix, F: (nat, nat) -> real)
    requires IsSquare(M) && |M| >= 2
    requires forall j: nat, l: nat :: F(j, l) == Twice(M, j, l)
    ensures Det(M) == Sum(|M|, (j: nat) => Sum(|M|, (l: nat) => F(j, l)))
  {
    RowExpansionIsSum(M, 0);
    forall j: nat | j < |M|
      ensures Term(M, 0, j) == Sum(|M|, (l: nat) => F(j, l))
    {
      ExpandTwice(M, j, (l: nat) => F(j, l));
    }
    SumExt(|M|, (j: nat) => Term(M, 0, j), (j: nat) => Sum(|M|, (l: nat) => F(j, l)));
  }

  lemma {:induction false} SwapSquare(M: Matrix, a: nat, b: nat)
    requires IsSquare(M) && a < |M| && b < |M|
    ensures IsSquare(Swap(M, a, b))
  {
  }

  /** Below their first row, the minors of M and of M with rows 0 and 1 exchanged agree. */
  lemma {:induction false} MinorOfSwapBelow(M: Matrix, lo: nat)
    requires IsSquare(M) && |M| >= 2 && lo < |M|
    ensures IsSquare(Swap(M, 0, 1))
    ensures forall r :: 1 <= r < |M| - 1 ==> Minor(Swap(M, 0, 1), 0, lo)[r] == Minor(M, 0, lo)[r]
  {
    SwapSquare(M, 0, 1);
    var m := Minor(M, 0, lo);
    var s := Minor(Swap(M, 0, 1), 0, lo);
    forall r | 1 <= r < |m|
      ensures s[r] == m[r]
    {
      assert forall c :: 0 <= c < |m| ==> s[r][c] == m[r][c];
    }
  }

  /** Rows 0 and 1 do not reach Pair, and Pair does not depend on the order of the two
      columns it drops. */
  lemma {:induction false} PairOfSwap(M: Matrix, j: nat, l: nat)
    requires IsSquare(M) && |M| >= 2 && j < |M| && l < |M| && j != l
    ensures IsSquare(Swap(M, 0, 1))
    ensures Pair(Swap(M, 0, 1), j, l) == Pair(M, l, j)
  {
    var lo := Min(j, l);
    var hi := Max(j, l);
    assert Min(l, j) == lo && Max(l, j) == hi;
    MinorOfSwapBelow(M, lo);
    var s := Minor(Swap(M, 0, 1), 0, lo);
    MinorBelowFirstRow(s, Minor(M, 0, lo), hi - 1);
    assert Pair(Swap(M, 0, 1), j, l) == Minor(s, 0, hi - 1);
  }

  /** The double-expansion term vanishes outside the matrix and on the diagonal. */
  lemma {:induction false} TwiceOff(M: Matrix, j: nat, l: nat)
    requires IsSquare(M) && |M| >= 2 && (j >= |M| || l >= |M| || j == l)
    ensures Twice(M, j, l) == 0.0
  {
    if j < |M| {
      assert Inner(M, j, l) == 0.0;
    }
  }

  lemma {:induction false} TwiceInside(M: Matrix, j: nat, l: nat)
    requires IsSquare(M) && |M| >= 2 && j < |M| && l < |M| && j != l
    ensures Twice(M, j, l) == Signed(j, M[0][j]) * (Signed(Pos(l, j), M[1][l]) * Det(Pair(M, j, l)))
  {
  }

  lemma {:induction false} TwiceOfSwap(M: Matrix, j: nat, l: nat)
    requires IsSquare(M) && |M| >= 2
    ensures IsSquare(Swap(M, 0, 1))
    ensures Twice(Swap(M, 0, 1), j, l) == - Twice(M, l, j)
  {
    var S := Swap(M, 0, 1);
    SwapSquare(M, 0, 1);
    if j >= |M| || l >= |M| || j == l {
      TwiceOff(S, j, l);
      TwiceOff(M, l, j);
    } else {
      PairOfSwap(M, j, l);
      TwiceInside(S, j, l);
      TwiceInside(M, l, j);
      assert S[0][j] == M[1][j] && S[1][l] == M[0][l];
      var d := Det(Pair(M, l, j));
      if j < l {
        assert Pos(l, j) == l - 1 && Pos(j, l) == j;
        SignFlip(j, M[1][j], l - 1, M[0][l], d);
      } else {
        assert Pos(l, j) == l && Pos(j, l) == j - 1;
        SignFlip(l, M[0][l], j - 1, M[1][j], d);
      }
    }
  }

  /** Moving a factor one position further flips the sign of the product. */
  lemma {:induction false} SignFlip(k: nat, x: real, m: nat, y: real, d: real)
    ensures Signed(k, x) * (Signed(m, y) * d) == - (Signed(m + 1, y) * (Signed(k, x) * d))
  {
  }

  /** Exchanging rows 0 and 1 negates the determinant. */
  lemma {:induction false} SwapFirstTwo(M: Matrix)
    requires IsSquare(M) && |M| >= 2
    ensures IsSquare(Swap(M, 0, 1))
    ensures Det(Swap(M, 0, 1)) == - Det(M)
  {
    var S := Swap(M, 0, 1);
    SwapSquare(M, 0, 1);
    var F: (nat, nat) -> real := (j: nat, l: nat) => Twice(M, j, l);
    var G: (nat, nat) -> real := (j: nat, l: nat) => Twice(S, j, l);
    DoubleExpansion(M, F);
    DoubleExpansion(S, G);
    forall j: nat, l: nat | j < |M| && l < |M|
      ensures G(j, l) == - F(l, j)
    {
      TwiceOfSwap(M, j, l);
    }
    SumTransposeNeg(|M|, F, G);
  }

  // ---------------------------------------------------------------------------
  // Any row exchange, equal rows, and row operations.

  lemma {:induction false} SwapSymmetric(M: Matrix, a: nat, b: nat)
    requires a < |M| && b < |M|
    ensures Swap(M, a, b) == Swap(M, b, a)
  {
  }

  lemma {:induction false} MinorOfSwap(M: Matrix, a: nat, b: nat, j: nat)
    requires IsSquare(M) && 1 <= a < |M| && 1 <= b < |M| && j < |M|
    ensures IsSquare(Swap(M, a, b))
    ensures Minor(Swap(M, a, b), 0, j) == Swap(Minor(M, 0, j), a - 1, b - 1)
  {
    SwapSquare(M, a, b);
    var L := Minor(Swap(M, a, b), 0, j);
    var R := Swap(Minor(M, 0, j), a - 1, b - 1);
    forall r, c | 0 <= r < |L| && 0 <= c < |L|
      ensures L[r][c] == R[r][c]
    {
      if r == a - 1 {
        assert R[r] == Minor(M, 0, j)[b - 1];
      } else if r == b - 1 {
        assert R[r] == Minor(M, 0, j)[a - 1];
      }
    }
    SameEntries(L, R);
  }

  /** Equal first rows and opposite cofactors give opposite terms. */
  lemma {:induction false} OppositeTerms(M: Matrix, S: Matrix, j: nat)
    requires IsSquare(M) && IsSquare(S) && |S| == |M| && j < |M| && S[0] == M[0]
    requires Cofactor(S, 0, j) == - Cofactor(M, 0, j)
    ensures Term(S, 0, j) == - Term(M, 0, j)
  {
    NegateFactor(M[0][j], Cofactor(M, 0, j));
  }

  lemma {:induction false} NegateFactor(x: real, y: real)
    ensures x * - y == - (x * y)
  {
  }

  /** Opposite partial expansions along the first row give opposite determinants. */
  lemma {:induction false} OppositeDets(M: Matrix, S: Matrix)
    requires IsSquare(M) && IsSquare(S) && |S| == |M| >= 1
    requires RowSum(S, 0, |M|) == - RowSum(M, 0, |M|)
    ensures Det(S) == - Det(M)
  {
    DetIsRowSum(M);
    DetIsRowSum(S);
  }

  lemma {:induction false} TermOfLowerSwap(M: Matrix, a: nat, b: nat, j: nat)
    requires IsSquare(M) && 1 <= a < |M| && 1 <= b < |M| && a != b && j < |M|
    ensures IsSquare(Swap(M, a, b))
    ensures Term(Swap(M, a, b), 0, j) == - Term(M, 0, j)
    decreases |M|, 0
  {
    SwapSquare(M, a, b);
    MinorOfSwap(M, a, b, j);
    if (a - 1 == 0 && b - 1 == 1) || (a - 1 == 1 && b - 1 == 0) {
      SwapSymmetric(Minor(M, 0, j), a - 1, b - 1);
      SwapFirstTwo(Minor(M, 0, j));
    } else {
      SwapRows(Minor(M, 0, j), a - 1, b - 1);
    }
    OppositeTerms(M, Swap(M, a, b), j);
  }

  lemma {:induction false} LowerSwapRowSum(M: Matrix, a: nat, b: nat, k: nat)
    requires IsSquare(M) && 1 <= a < |M| && 1 <= b < |M| && a != b && k <= |M|
    ensures IsSquare(Swap(M, a, b))
    ensures RowSum(Swap(M, a, b), 0, k) == - RowSum(M, 0, k)
    decreases |M|, 1, k
  {
    SwapSquare(M, a, b);
    if k > 0 {
      LowerSwapRowSum(M, a, b, k - 1);
      TermOfLowerSwap(M, a, b, k - 1);
    }
  }

  /** Exchanging two rows below the first negates the determinant. */
  lemma {:induction false} SwapLowerRows(M: Matrix, a: nat, b: nat)
    requires IsSquare(M) && 1 <= a < |M| && 1 <= b < |M| && a != b
    ensures IsSquare(Swap(M, a, b))
    ensures Det(Swap(M, a, b)) == - Det(M)
    decreases |M|, 2
  {
    SwapSquare(M, a, b);
    LowerSwapRowSum(M, a, b, |M|);
    OppositeDets(M, Swap(M, a, b));
  }

  /** Exchanging any two distinct rows negates the determinant. */
  lemma {:induction false} SwapRows(M: Matrix, a: nat, b: nat)
    requires IsSquare(M) && a < |M| && b < |M| && a != b
    ensures IsSquare(Swap(M, a, b))
    ensures Det(Swap(M, a, b)) == - Det(M)
    decreases |M|, 3
  {
    SwapSquare(M, a, b);
    SwapSymmetric(M, a, b);
    var lo := if a < b then a else b;
    var hi := if a < b then b else a;
    if lo >= 1 {
      SwapLowerRows(M, lo, hi);
    } else if hi == 1 {
      SwapFirstTwo(M);
    } else {
      // (0 hi) = (1 hi) (0 1) (1 hi)
      var M1 := Swap(M, 1, hi);
      var M2 := Swap(M1, 0, 1);
      SwapLowerRows(M, 1, hi);
      SwapFirstTwo(M1);
      SwapLowerRows(M2, 1, hi);
      assert Swap(M2, 1, hi) == Swap(M, lo, hi);
    }
  }

  /** Two equal rows make the determinant 0. */
  lemma {:induction false} EqualRows(M: Matrix, a: nat, b: nat)
    requires IsSquare(M) && a < |M| && b < |M| && a != b && M[a] == M[b]
    ensures Det(M) == 0.0
  {
    SwapRows(M, a, b);
    assert Swap(M, a, b) == M;
  }

  lemma {:induction false} Distribute(a: real, b: real, d: real)
    ensures (a + b) * d == a * d + b * d
  {
  }

  lemma {:induction false} AdditiveRowSum(M: Matrix, x: seq<real>, y: seq<real>, z: seq<real>, k: nat)
    requires IsSquare(M) && |M| >= 1 && |x| == |M| && |y| == |M| && |z| == |M| && k <= |M|
    requires forall i :: 0 <= i < |M| ==> z[i] == x[i] + y[i]
    ensures IsSquare(M[0 := x]) && IsSquare(M[0 := y]) && IsSquare(M[0 := z])
    ensures RowSum(M[0 := z], 0, k) == RowSum(M[0 := x], 0, k) + RowSum(M[0 := y], 0, k)
  {
    if k > 0 {
      var X, Y, Z := M[0 := x], M[0 := y], M[0 := z];
      AdditiveRowSum(M, x, y, z, k - 1);
      TermOfRowUpdate(M, 0, x, k - 1);
      TermOfRowUpdate(M, 0, y, k - 1);
      TermOfRowUpdate(M, 0, z, k - 1);
      Distribute(x[k - 1], y[k - 1], Cofactor(M, 0, k - 1));
      AddPairs(RowSum(Z, 0, k - 1), RowSum(X, 0, k - 1), RowSum(Y, 0, k - 1),
               Term(Z, 0, k - 1), Term(X, 0, k - 1), Term(Y, 0, k - 1));
    }
  }

  /** The first row enters the determinant additively: with z = x + y, the
      determinant with first row z is the sum of those with x and with y. */
  lemma {:induction false} AddPairs(c: real, a: real, b: real, tc: real, ta: real, tb: real)
    requires c == a + b && tc == ta + tb
    ensures c + tc == (a + ta) + (b + tb)
  {
  }

  lemma {:induction false} FirstRowAdditive(M: Matrix, x: seq<real>, y: seq<real>, z: seq<real>)
    requires IsSquare(M) && |M| >= 1 && |x| == |M| && |y| == |M| && |z| == |M|
    requires forall i :: 0 <= i < |M| ==> z[i] == x[i] + y[i]
    ensures IsSquare(M[0 := x]) && IsSquare(M[0 := y]) && IsSquare(M[0 := z])
    ensures Det(M[0 := z]) == Det(M[0 := x]) + Det(M[0 := y])
  {
    AdditiveRowSum(M, x, y, z, |M|);
    DetIsRowSum(M[0 := x]);
    DetIsRowSum(M[0 := y]);
    DetIsRowSum(M[0 := z]);
  }

  /** A first row that is a multiple of another row gives determinant 0. */
  lemma {:induction false} MultipleOfRow(M: Matrix, s: nat, c: real)
    requires IsSquare(M) && 1 <= s < |M|
    ensures IsSquare(M[0 := M[s]])
    ensures IsSquare(ScaleRow(M[0 := M[s]], 0, c))
    ensures Det(ScaleRow(M[0 := M[s]], 0, c)) == 0.0
  {
    var E := M[0 := M[s]];
    MinorOfRowUpdate(M, 0, M[s], 0);
    EqualRows(E, 0, s);
    ScaleFirstRow(E, c);
    TimesZero(Det(ScaleRow(E, 0, c)), Det(E), c);
  }

  lemma {:induction false} TimesZero(a: real, b: real, c: real)
    requires a == c * b && b == 0.0
    ensures a == 0.0
  {
  }

  /** Adding a multiple of another row to the first row keeps the determinant. */
  lemma {:induction false} AddToFirstRow(M: Matrix, s: nat, c: real)
    requires IsSquare(M) && 1 <= s < |M|
    ensures IsSquare(AddRow(M, 0, s, c))
    ensures Det(AddRow(M, 0, s, c)) == Det(M)
  {
    var N := AddRow(M, 0, s, c);
    MultipleOfRow(M, s, c);
    var Y := ScaleRow(M[0 := M[s]], 0, c);
    assert M[0 := Y[0]] == Y;
    FirstRowAdditive(M, M[0], Y[0], N[0]);
    assert M[0 := M[0]] == M;
    assert M[0 := N[0]] == N;
  }

  /** Adding a multiple of one row to another keeps the determinant. */
  lemma {:induction false} AddRowKeepsDet(M: Matrix, r: nat, s: nat, c: real)
    requires IsSquare(M) && r < |M| && s < |M| && r != s
    ensures IsSquare(AddRow(M, r, s, c))
    ensures Det(AddRow(M, r, s, c)) == Det(M)
  {
    if r == 0 {
      AddToFirstRow(M, s, c);
    } else {
      var N := Swap(M, 0, r);
      var s' := if s == 0 then r else s;
      SwapRows(M, 0, r);
      AddToFirstRow(N, s', c);
      var N' := AddRow(N, 0, s', c);
      SwapRows(N', 0, r);
      assert Swap(N', 0, r) == AddRow(M, r, s, c);
    }
  }

  /** The term of a row that was replaced by x. */
  lemma {:induction false} TermOfRowUpdate(M: Matrix, i: nat, x: seq<real>, j: nat)
    requires IsSquare(M) && i < |M| && j < |M| && |x| == |M|
    ensures IsSquare(M[i := x])
    ensures Term(M[i := x], i, j) == x[j] * Cofactor(M, i, j)
  {
    CofactorOfRowUpdate(M, i, x, j);
  }

  lemma {:induction false} Regroup(a: real, b: real, c: real)
    ensures (c * a) * b == c * (a * b)
  {
  }

  lemma {:induction false} ScaleRowSquare(M: Matrix, r: nat, c: real)
    requires IsSquare(M) && r < |M|
    ensures IsSquare(ScaleRow(M, r, c))
  {
    var N := ScaleRow(M, r, c);
    forall i | 0 <= i < |N|
      ensures |N[i]| == |N|
    {
      if i != r {
        assert N[i] == M[i];
      }
    }
  }

  lemma {:induction false} TermOfScaledRow(M: Matrix, c: real, j: nat)
    requires IsSquare(M) && j < |M|
    ensures IsSquare(ScaleRow(M, 0, c))
    ensures Term(ScaleRow(M, 0, c), 0, j) == c * Term(M, 0, j)
  {
    ScaleRowSquare(M, 0, c);
    var N := ScaleRow(M, 0, c);
    assert M[0 := N[0]] == N;
    TermOfRowUpdate(M, 0, N[0], j);
    TermOfRowUpdate(M, 0, M[0], j);
    assert M[0 := M[0]] == M;
    Regroup(M[0][j], Cofactor(M, 0, j), c);
  }

  lemma {:induction false} ScaledRowSum(M: Matrix, c: real, k: nat)
    requires IsSquare(M) && 1 <= |M| && k <= |M|
    ensures IsSquare(ScaleRow(M, 0, c))
    ensures RowSum(ScaleRow(M, 0, c), 0, k) == c * RowSum(M, 0, k)
  {
    ScaleRowSquare(M, 0, c);
    if k > 0 {
      ScaledRowSum(M, c, k - 1);
      TermOfScaledRow(M, c, k - 1);
    }
  }

  /** Multiplying the first row by c multiplies the determinant by c. */
  lemma {:induction false} ScaleFirstRow(M: Matrix, c: real)
    requires IsSquare(M) && |M| >= 1
    ensures IsSquare(ScaleRow(M, 0, c))
    ensures Det(ScaleRow(M, 0, c)) == c * Det(M)
  {
    ScaledRowSum(M, c, |M|);
    DetFromRowSums(M, ScaleRow(M, 0, c), c);
  }

  /** Multiplying a row by c multiplies the determinant by c. */
  lemma {:induction false} ScaleRowDet(M: Matrix, r: nat, c: real)
    requires IsSquare(M) && r < |M|
    ensures IsSquare(ScaleRow(M, r, c))
    ensures Det(ScaleRow(M, r, c)) == c * Det(M)
  {
    if r == 0 {
      ScaleFirstRow(M, c);
    } else {
      var N := Swap(M, 0, r);
      SwapRows(M, 0, r);
      ScaleFirstRow(N, c);
      var N' := ScaleRow(N, 0, c);
      SwapRows(N', 0, r);
      assert Swap(N', 0, r) == ScaleRow(M, r, c);
      ScaleBetweenSwaps(M, N, N', ScaleRow(M, r, c), c);
    }
  }

  lemma {:induction false} ScaleBetweenSwaps(M: Matrix, N: Matrix, N': Matrix, S: Matrix, c: real)
    requires IsSquare(M) && IsSquare(N) && IsSquare(N') && IsSquare(S)
    requires Det(N) == - Det(M) && Det(N') == c * Det(N) && Det(S) == - Det(N')
    ensures Det(S) == c * Det(M)
  {
    NegatedTwice(Det(S), Det(N'), Det(N), Det(M), c);
  }

  lemma {:induction false} NegatedTwice(a: real, b: real, d: real, e: real, c: real)
    requires a == - b && b == c * d && d == - e
    ensures a == c * e
  {
  }
}
