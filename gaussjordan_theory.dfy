/** What the Gauss-Jordan method computes. Every operation it performs on [A | I] is a
    row operation on the whole augmented matrix, so the right block R and the left
    block L keep R * A = L, and L stays singular exactly when A is. With exact pivot
    tests the columns already reduced are unit columns, so the method ends with
    L = I and R = A^-1, or stops at a column that makes L, hence A, singular. */
module GaussJordanTheory {
  import opened Sums
  import opened Matrices
  import opened Determinant
  import opened ForwardElimination
  import opened Expansion
  import opened GaussJordanElimination
  import Steps

  /** R * A = L. */
  predicate Tracks(G: Matrix, A: Matrix)
    requires IsSquare(A)
  {
    IsAug(G, |A|) && Mul(RightBlock(G, |A|), A) == LeftBlock(G, |A|)
  }

  /** L is singular exactly when A is. */
  predicate SameSingularity(G: Matrix, A: Matrix)
    requires IsSquare(A)
  {
    IsAug(G, |A|) && ((Det(LeftBlock(G, |A|)) == 0.0) == (Det(A) == 0.0))
  }

  predicate Equivalent(G: Matrix, A: Matrix)
    requires IsSquare(A)
  {
    Tracks(G, A) && SameSingularity(G, A)
  }

  /** The first k columns of the left block are those of the identity. */
  predicate UnitColumns(G: Matrix, n: nat, k: nat)
    requires IsAug(G, n) && k <= n
  {
    forall r, c :: 0 <= r < n && 0 <= c < k ==> G[r][c] == if r == c then 1.0 else 0.0
  }

  // ---------------------------------------------------------------------------
  // Row combinations and the product R * A.

  lemma {:induction false} Distrib(a: real, b: real, x: real, y: real, z: real)
    ensures (a * x + b * y) * z == a * (x * z) + b * (y * z)
  {
  }

  lemma {:induction false} DotCombination(R: Matrix, R': Matrix, A: Matrix, i: nat, s: nat, t: nat, a: real, b: real, j: nat)
    requires IsSquare(R) && IsSquare(R') && IsSquare(A) && |R| == |R'| == |A|
    requires i < |A| && s < |A| && t < |A| && j < |A|
    requires forall l :: 0 <= l < |A| ==> R'[i][l] == a * R[s][l] + b * R[t][l]
    ensures Dot(R', A, i, j) == a * Dot(R, A, s, j) + b * Dot(R, A, t, j)
  {
    var fs := (k: nat) => if k < |R| then R[s][k] * A[k][j] else 0.0;
    var ft := (k: nat) => if k < |R| then R[t][k] * A[k][j] else 0.0;
    var h := (k: nat) => if k < |R'| then R'[i][k] * A[k][j] else 0.0;
    forall l: nat | l < |A|
      ensures h(l) == a * fs(l) + b * ft(l)
    {
      Distrib(a, b, R[s][l], R[t][l], A[l][j]);
    }
    SumCombination(|A|, fs, ft, h, a, b);
  }

  /** If row i of R' is a * R[s] + b * R[t], then row i of R' * A is the same
      combination of the rows of R * A. */
  lemma {:induction false} MulRowCombination(R: Matrix, R': Matrix, A: Matrix, i: nat, s: nat, t: nat, a: real, b: real, j: nat)
    requires IsSquare(R) && IsSquare(R') && IsSquare(A) && |R| == |R'| == |A|
    requires i < |A| && s < |A| && t < |A| && j < |A|
    requires forall l :: 0 <= l < |A| ==> R'[i][l] == a * R[s][l] + b * R[t][l]
    ensures Mul(R', A)[i][j] == a * Mul(R, A)[s][j] + b * Mul(R, A)[t][j]
  {
    DotCombination(R, R', A, i, s, t, a, b, j);
  }

  /** A row of the augmented matrix that is a combination of two rows of an
      equivalent one keeps R * A = L in that row. */
  lemma {:induction false} TracksRow(G: Matrix, G': Matrix, A: Matrix, i: nat, s: nat, t: nat, a: real, b: real)
    requires IsSquare(A) && Tracks(G, A) && IsAug(G', |A|)
    requires i < |A| && s < |A| && t < |A|
    requires forall c :: 0 <= c < 2 * |A| ==> G'[i][c] == a * G[s][c] + b * G[t][c]
    ensures forall j :: 0 <= j < |A| ==> Mul(RightBlock(G', |A|), A)[i][j] == LeftBlock(G', |A|)[i][j]
  {
    var n := |A|;
    var R := RightBlock(G, n);
    var R' := RightBlock(G', n);
    var L := LeftBlock(G, n);
    forall l | 0 <= l < n
      ensures R'[i][l] == a * R[s][l] + b * R[t][l]
    {
      assert G'[i][n + l] == a * G[s][n + l] + b * G[t][n + l];
    }
    forall j | 0 <= j < n
      ensures Mul(R', A)[i][j] == LeftBlock(G', n)[i][j]
    {
      MulRowCombination(R, R', A, i, s, t, a, b, j);
      assert Mul(R, A)[s][j] == L[s][j] && Mul(R, A)[t][j] == L[t][j];
      assert G'[i][j] == a * G[s][j] + b * G[t][j];
    }
  }

  /** Rows that are equal in both keep R * A = L. */
  lemma {:induction false} TracksCopy(G: Matrix, G': Matrix, A: Matrix, i: nat, s: nat)
    requires IsSquare(A) && Tracks(G, A) && IsAug(G', |A|)
    requires i < |A| && s < |A| && G'[i] == G[s]
    ensures forall j :: 0 <= j < |A| ==> Mul(RightBlock(G', |A|), A)[i][j] == LeftBlock(G', |A|)[i][j]
  {
    TracksRow(G, G', A, i, s, s, 1.0, 0.0);
  }

  lemma {:induction false} ProductOfEntries(G': Matrix, A: Matrix)
    requires IsSquare(A) && IsAug(G', |A|)
    requires forall i, j :: 0 <= i < |A| && 0 <= j < |A| ==> Mul(RightBlock(G', |A|), A)[i][j] == LeftBlock(G', |A|)[i][j]
    ensures Tracks(G', A)
  {
    SameEntries(Mul(RightBlock(G', |A|), A), LeftBlock(G', |A|));
  }

  // ---------------------------------------------------------------------------
  // The three row operations of the method.

  /** Exchanging rows a and b. */
  lemma {:induction false} SwapTracks(G: Matrix, A: Matrix, a: nat, b: nat)
    requires IsSquare(A) && Tracks(G, A) && a < |A| && b < |A|
    ensures Tracks(Swap(G, a, b), A)
  {
    var n := |A|;
    var G' := Swap(G, a, b);
    assert IsAug(G', n);
    forall i | 0 <= i < n
      ensures forall j :: 0 <= j < n ==> Mul(RightBlock(G', n), A)[i][j] == LeftBlock(G', n)[i][j]
    {
      TracksCopy(G, G', A, i, if i == a then b else if i == b then a else i);
    }
    ProductOfEntries(G', A);
  }

  lemma {:induction false} SwapSingularity(G: Matrix, A: Matrix, a: nat, b: nat)
    requires IsSquare(A) && SameSingularity(G, A) && a < |A| && b < |A| && a != b
    ensures SameSingularity(Swap(G, a, b), A)
  {
    var n := |A|;
    var G' := Swap(G, a, b);
    assert IsAug(G', n);
    var L := LeftBlock(G, n);
    SameEntries(LeftBlock(G', n), Swap(L, a, b));
    SwapRows(L, a, b);
  }

  lemma {:induction false} SwapEquivalent(G: Matrix, A: Matrix, a: nat, b: nat)
    requires IsSquare(A) && Equivalent(G, A) && a < |A| && b < |A| && a != b
    ensures Equivalent(Swap(G, a, b), A)
  {
    SwapTracks(G, A, a, b);
    SwapSingularity(G, A, a, b);
  }

  lemma {:induction false} DivideAsScale(x: real, p: real)
    requires p != 0.0
    ensures x / p == (1.0 / p) * x + 0.0 * x && 1.0 / p != 0.0
  {
  }

  /** Dividing row k by a non-zero p. */
  lemma {:induction false} NormalizeTracks(G: Matrix, A: Matrix, k: nat, p: real)
    requires IsSquare(A) && Tracks(G, A) && k < |A| && p != 0.0
    ensures Tracks(Normalized(G, k, p), A)
  {
    var n := |A|;
    var G' := Normalized(G, k, p);
    assert IsAug(G', n);
    forall i | 0 <= i < n
      ensures forall j :: 0 <= j < n ==> Mul(RightBlock(G', n), A)[i][j] == LeftBlock(G', n)[i][j]
    {
      if i == k {
        forall c | 0 <= c < 2 * n
          ensures G'[k][c] == (1.0 / p) * G[k][c] + 0.0 * G[k][c]
        {
          DivideAsScale(G[k][c], p);
        }
        TracksRow(G, G', A, k, k, k, 1.0 / p, 0.0);
      } else {
        TracksCopy(G, G', A, i, i);
      }
    }
    ProductOfEntries(G', A);
  }

  lemma {:induction false} NormalizeSingularity(G: Matrix, A: Matrix, k: nat, p: real)
    requires IsSquare(A) && SameSingularity(G, A) && k < |A| && p != 0.0
    ensures SameSingularity(Normalized(G, k, p), A)
  {
    var n := |A|;
    var G' := Normalized(G, k, p);
    assert IsAug(G', n);
    var L := LeftBlock(G, n);
    forall c | 0 <= c < n
      ensures LeftBlock(G', n)[k][c] == ScaleRow(L, k, 1.0 / p)[k][c]
    {
      DivideAsScale(G[k][c], p);
    }
    SameEntries(LeftBlock(G', n), ScaleRow(L, k, 1.0 / p));
    ScaleRowDet(L, k, 1.0 / p);
    DivideAsScale(0.0, p);
  }

  lemma {:induction false} NormalizeEquivalent(G: Matrix, A: Matrix, k: nat, p: real)
    requires IsSquare(A) && Equivalent(G, A) && k < |A| && p != 0.0
    ensures Equivalent(Normalized(G, k, p), A)
  {
    NormalizeTracks(G, A, k, p);
    NormalizeSingularity(G, A, k, p);
  }

  lemma {:induction false} SubtractAsAdd(x: real, y: real, f: real)
    ensures x - f * y == 1.0 * x + (- f) * y && x - f * y == x + (- f) * y
  {
  }

  /** Subtracting f times row k from row i. */
  lemma {:induction false} ClearTracks(G: Matrix, A: Matrix, i: nat, k: nat, f: real)
    requires IsSquare(A) && Tracks(G, A) && i < |A| && k < |A|
    ensures Tracks(G[i := ClearedRow(G[i], G[k], f)], A)
  {
    var n := |A|;
    var G' := G[i := ClearedRow(G[i], G[k], f)];
    assert IsAug(G', n);
    forall r | 0 <= r < n
      ensures forall j :: 0 <= j < n ==> Mul(RightBlock(G', n), A)[r][j] == LeftBlock(G', n)[r][j]
    {
      if r == i {
        forall c | 0 <= c < 2 * n
          ensures G'[i][c] == 1.0 * G[i][c] + (- f) * G[k][c]
        {
          SubtractAsAdd(G[i][c], G[k][c], f);
        }
        TracksRow(G, G', A, i, i, k, 1.0, - f);
      } else {
        TracksCopy(G, G', A, r, r);
      }
    }
    ProductOfEntries(G', A);
  }

  lemma {:induction false} ClearSingularity(G: Matrix, A: Matrix, i: nat, k: nat, f: real)
    requires IsSquare(A) && SameSingularity(G, A) && i < |A| && k < |A| && i != k
    ensures SameSingularity(G[i := ClearedRow(G[i], G[k], f)], A)
  {
    var n := |A|;
    var G' := G[i := ClearedRow(G[i], G[k], f)];
    assert IsAug(G', n);
    var L := LeftBlock(G, n);
    forall c | 0 <= c < n
      ensures LeftBlock(G', n)[i][c] == AddRow(L, i, k, - f)[i][c]
    {
      SubtractAsAdd(G[i][c], G[k][c], f);
    }
    SameEntries(LeftBlock(G', n), AddRow(L, i, k, - f));
    AddRowKeepsDet(L, i, k, - f);
  }

  lemma {:induction false} ClearEquivalent(G: Matrix, A: Matrix, i: nat, k: nat, f: real)
    requires IsSquare(A) && Equivalent(G, A) && i < |A| && k < |A| && i != k
    ensures Equivalent(G[i := ClearedRow(G[i], G[k], f)], A)
  {
    ClearTracks(G, A, i, k, f);
    ClearSingularity(G, A, i, k, f);
  }

  // ---------------------------------------------------------------------------
  // The loops keep the invariant.

  lemma {:induction false} ClearFromEquivalent(s: GJ, k: nat, i: nat, eps: real, A: Matrix)
    requires IsSquare(A) && Equivalent(s.aug, A) && k < |A| && i <= |A|
    ensures Equivalent(ClearFrom(s, k, i, eps).aug, A)
    decreases |A| - i
  {
    if i == |A| {
    } else if i == k || Negligible(s.aug[i][k], eps) {
      ClearFromEquivalent(s, k, i + 1, eps, A);
    } else {
      var f := s.aug[i][k];
      var N := s.aug[i := ClearedRow(s.aug[i], s.aug[k], f)];
      ClearEquivalent(s.aug, A, i, k, f);
      ClearFromEquivalent(GJ(N, s.steps + [Steps.Shown(Steps.ClearRow(i, k, f), N)]), k, i + 1, eps, A);
    }
  }

  lemma {:induction false} SwapForPivotEquivalent(s: GJ, k: nat, eps: real, A: Matrix)
    requires IsSquare(A) && Equivalent(s.aug, A) && k < |A|
    requires Negligible(s.aug[k][k], eps) ==> PivotRow(s.aug, k, k + 1, eps) < |s.aug|
    ensures Equivalent(SwapForPivot(s, k, eps).aug, A)
  {
    if Negligible(s.aug[k][k], eps) {
      SwapEquivalent(s.aug, A, k, PivotRow(s.aug, k, k + 1, eps));
    }
  }

  lemma {:induction false} RoundEquivalent(s: GJ, k: nat, eps: real, A: Matrix)
    requires IsSquare(A) && Equivalent(s.aug, A) && k < |A|
    requires Negligible(s.aug[k][k], eps) ==> PivotRow(s.aug, k, k + 1, eps) < |s.aug|
    ensures Equivalent(Round(s, k, eps).aug, A)
  {
    var u := SwapForPivot(s, k, eps);
    SwapForPivotEquivalent(s, k, eps, A);
    var p := u.aug[k][k];
    var N := Normalized(u.aug, k, p);
    NormalizeEquivalent(u.aug, A, k, p);
    ClearFromEquivalent(GJ(N, u.steps + [Steps.Shown(Steps.Normalize(k, p), N)]), k, 0, eps, A);
  }

  // ---------------------------------------------------------------------------
  // With exact pivot tests the reduced columns are unit columns.

  lemma {:induction false} SwapForPivotUnit(s: GJ, k: nat)
    requires IsAug(s.aug, |s.aug|) && k < |s.aug| && UnitColumns(s.aug, |s.aug|, k)
    requires Negligible(s.aug[k][k], 0.0) ==> PivotRow(s.aug, k, k + 1, 0.0) < |s.aug|
    ensures UnitColumns(SwapForPivot(s, k, 0.0).aug, |s.aug|, k)
  {
    var n := |s.aug|;
    if Negligible(s.aug[k][k], 0.0) {
      var sw := PivotRow(s.aug, k, k + 1, 0.0);
      var S := SwapForPivot(s, k, 0.0).aug;
      forall r, c | 0 <= r < n && 0 <= c < k
        ensures S[r][c] == if r == c then 1.0 else 0.0
      {
        if r == k {
          assert S[r] == s.aug[sw];
        } else if r == sw {
          assert S[r] == s.aug[k];
        } else {
          assert S[r] == s.aug[r];
        }
      }
    }
  }

  lemma {:induction false} NormalizeUnit(G: Matrix, k: nat, p: real)
    requires IsAug(G, |G|) && k < |G| && UnitColumns(G, |G|, k) && p == G[k][k] && p != 0.0
    ensures IsAug(Normalized(G, k, p), |G|) && UnitColumns(Normalized(G, k, p), |G|, k)
    ensures Normalized(G, k, p)[k][k] == 1.0
  {
    var N := Normalized(G, k, p);
    forall r, c | 0 <= r < |G| && 0 <= c < k
      ensures N[r][c] == if r == c then 1.0 else 0.0
    {
      if r == k {
        assert N[k][c] == G[k][c] / p;
      }
    }
  }

  /** Rows before i, other than the pivot row k, already have 0 in column k. */
  predicate ClearedUpTo(G: Matrix, n: nat, k: nat, i: nat)
    requires IsAug(G, n) && k < n && i <= n
  {
    UnitColumns(G, n, k) && G[k][k] == 1.0
      && forall r :: 0 <= r < i && r != k ==> G[r][k] == 0.0
  }

  lemma {:induction false} ClearRowUnit(G: Matrix, k: nat, i: nat)
    requires IsAug(G, |G|) && k < |G| && i < |G| && i != k && ClearedUpTo(G, |G|, k, i)
    ensures IsAug(G[i := ClearedRow(G[i], G[k], G[i][k])], |G|)
    ensures ClearedUpTo(G[i := ClearedRow(G[i], G[k], G[i][k])], |G|, k, i + 1)
  {
    var f := G[i][k];
    var N := G[i := ClearedRow(G[i], G[k], f)];
    assert IsAug(N, |G|);
    forall r, c | 0 <= r < |G| && 0 <= c < k
      ensures N[r][c] == if r == c then 1.0 else 0.0
    {
      if r == i {
        assert N[i][c] == G[i][c] - f * G[k][c];
      }
    }
    assert N[i][k] == G[i][k] - f * G[k][k];
  }

  lemma {:induction false} ClearFromUnit(s: GJ, k: nat, i: nat)
    requires IsAug(s.aug, |s.aug|) && k < |s.aug| && i <= |s.aug| && ClearedUpTo(s.aug, |s.aug|, k, i)
    ensures UnitColumns(ClearFrom(s, k, i, 0.0).aug, |s.aug|, k + 1)
    decreases |s.aug| - i
  {
    var n := |s.aug|;
    if i == n {
      forall r, c | 0 <= r < n && 0 <= c < k + 1
        ensures s.aug[r][c] == if r == c then 1.0 else 0.0
      {
      }
    } else if i == k || Negligible(s.aug[i][k], 0.0) {
      ClearFromUnit(s, k, i + 1);
    } else {
      var f := s.aug[i][k];
      var N := s.aug[i := ClearedRow(s.aug[i], s.aug[k], f)];
      ClearRowUnit(s.aug, k, i);
      ClearFromUnit(GJ(N, s.steps + [Steps.Shown(Steps.ClearRow(i, k, f), N)]), k, i + 1);
    }
  }

  lemma {:induction false} RoundUnit(s: GJ, k: nat)
    requires IsAug(s.aug, |s.aug|) && k < |s.aug| && UnitColumns(s.aug, |s.aug|, k)
    requires Negligible(s.aug[k][k], 0.0) ==> PivotRow(s.aug, k, k + 1, 0.0) < |s.aug|
    ensures UnitColumns(Round(s, k, 0.0).aug, |s.aug|, k + 1)
  {
    var u := SwapForPivot(s, k, 0.0);
    SwapForPivotUnit(s, k);
    var p := u.aug[k][k];
    var N := Normalized(u.aug, k, p);
    NormalizeUnit(u.aug, k, p);
    ClearFromUnit(GJ(N, u.steps + [Steps.Shown(Steps.Normalize(k, p), N)]), k, 0);
  }

  // ---------------------------------------------------------------------------
  // The two ways the loop ends.

  /** Columns before k are those of an upper triangle with 1 on the diagonal. */
  predicate UnitBelow(L: Matrix, k: nat)
    requires IsSquare(L)
  {
    forall r, c :: 0 <= c < k && c <= r < |L| ==> L[r][c] == if r == c then 1.0 else 0.0
  }

  lemma {:induction false} UnitBelowDet(L: Matrix, c: nat, k: nat)
    requires IsSquare(L) && c <= k <= |L| && UnitBelow(L, k)
    ensures Det(Bottom(L, c)) == Det(Bottom(L, k))
    decreases k - c
  {
    if c < k {
      var B := Bottom(L, c);
      assert B[0][0] == L[c][c];
      forall r | 1 <= r < |B|
        ensures B[r][0] == 0.0
      {
        assert B[r][0] == L[r + c][c];
      }
      FirstColumnZeroBelow(B);
      MinorOfBottom(L, c);
      UnitBelowDet(L, c + 1, k);
    }
  }

  /** Unit columns before k and zeros from row k down in column k: L is singular. */
  lemma {:induction false} StuckColumnDet(L: Matrix, k: nat)
    requires IsSquare(L) && k < |L| && UnitBelow(L, k)
    requires forall r :: k <= r < |L| ==> L[r][k] == 0.0
    ensures Det(L) == 0.0
  {
    UnitBelowDet(L, 0, k);
    BottomOfAll(L);
    var B := Bottom(L, k);
    forall r | 0 <= r < |B|
      ensures B[r][0] == 0.0
    {
      assert B[r][0] == L[r + k][k];
    }
    ZeroColumn(B, 0);
  }

  lemma {:induction false} UnitLeftBlock(G: Matrix, n: nat)
    requires IsAug(G, n) && UnitColumns(G, n, n)
    ensures LeftBlock(G, n) == Identity(n)
  {
    SameEntries(LeftBlock(G, n), Identity(n));
  }

  /** What the run from column k delivers with exact pivot tests. */
  predicate ExactOutcome(r: Inversion, A: Matrix)
    requires IsSquare(A)
  {
    (r.NoPivot? ==> Det(A) == 0.0)
      && (r.Inverted? ==> IsSquare(r.inv) && |r.inv| == |A| && Mul(r.inv, A) == Identity(|A|) && Det(A) != 0.0)
  }

  lemma {:induction false} ExactEnd(s: GJ, A: Matrix)
    requires IsSquare(A) && |s.aug| == |A| && Equivalent(s.aug, A) && UnitColumns(s.aug, |A|, |A|)
    ensures ExactOutcome(GJFrom(s, |A|, 0.0), A)
  {
    var n := |A|;
    UnitLeftBlock(s.aug, n);
    DetIdentity(n);
    assert GJFrom(s, n, 0.0).inv == RightBlock(s.aug, n);
  }

  lemma {:induction false} ExactStuck(s: GJ, k: nat, A: Matrix)
    requires IsSquare(A) && |s.aug| == |A| && Equivalent(s.aug, A) && k < |A| && UnitColumns(s.aug, |A|, k)
    requires Negligible(s.aug[k][k], 0.0) && PivotRow(s.aug, k, k + 1, 0.0) == |A|
    ensures Det(A) == 0.0
  {
    var n := |A|;
    var L := LeftBlock(s.aug, n);
    forall r, c | 0 <= c < k && c <= r < n
      ensures L[r][c] == if r == c then 1.0 else 0.0
    {
    }
    forall r | k <= r < n
      ensures L[r][k] == 0.0
    {
      if r > k {
        assert Negligible(s.aug[r][k], 0.0);
      }
    }
    StuckColumnDet(L, k);
  }

  lemma {:induction false} GJFromExact(s: GJ, k: nat, A: Matrix)
    requires IsSquare(A) && |s.aug| == |A| && Equivalent(s.aug, A) && k <= |A| && UnitColumns(s.aug, |A|, k)
    ensures ExactOutcome(GJFrom(s, k, 0.0), A)
    decreases |A| - k
  {
    if k == |A| {
      ExactEnd(s, A);
    } else if Negligible(s.aug[k][k], 0.0) && PivotRow(s.aug, k, k + 1, 0.0) == |A| {
      ExactStuck(s, k, A);
    } else {
      var t := Round(s, k, 0.0);
      RoundEquivalent(s, k, 0.0, A);
      RoundUnit(s, k);
      GJFromExact(t, k + 1, A);
      assert GJFrom(s, k, 0.0) == GJFrom(t, k + 1, 0.0);
    }
  }

  /** [A | I] has R * A = L trivially: R = I and L = A. */
  lemma {:induction false} AugmentEquivalent(A: Matrix)
    requires IsSquare(A)
    ensures Equivalent(Augment(A), A) && UnitColumns(Augment(A), |A|, 0)
  {
    var n := |A|;
    var G := Augment(A);
    SameEntries(LeftBlock(G, n), A);
    SameEntries(RightBlock(G, n), Identity(n));
    MulIdentityLeft(A);
  }

  /** With exact pivot tests, Gauss-Jordan stops without a pivot exactly when A is
      singular, and otherwise returns the inverse: it is a two-sided inverse and it is
      adj(A) / det(A), the matrix the adjugate method shows. */
  lemma {:induction false} ExactGaussJordan(A: Matrix)
    requires IsSquare(A)
    ensures GaussJordan(A, 0.0).NoPivot? <==> Det(A) == 0.0
    ensures GaussJordan(A, 0.0).Inverted? ==>
      var inv := GaussJordan(A, 0.0).inv;
      && Det(A) != 0.0 && IsSquare(inv) && |inv| == |A|
      && Mul(inv, A) == Identity(|A|) && Mul(A, inv) == Identity(|A|)
      && inv == DivideAll(Adjugate(A), Det(A))
  {
    var G := Augment(A);
    AugmentEquivalent(A);
    GJFromExact(GJ(G, [Steps.Shown(Steps.Augmented, G)]), 0, A);
    var r := GaussJordan(A, 0.0);
    if r.Inverted? {
      AdjugateInverse(A, Det(A));
      InverseUnique(A, r.inv, DivideAll(Adjugate(A), Det(A)));
    }
  }

  /** With the source's threshold `1e-12`, an invertible matrix whose pivot is below
      the threshold and has nothing to swap in is reported as having no pivot: the
      method throws although det(A) = 1e-13. */
  lemma {:induction false} ThresholdRejectsInvertible()
    ensures var A: Matrix := [[0.0000000000001, 0.0], [0.0, 1.0]];
      && IsSquare(A) && Det(A) == 0.0000000000001
      && GaussJordan(A, Eps) == NoPivot(0)
  {
    var A: Matrix := [[0.0000000000001, 0.0], [0.0, 1.0]];
    DetOf2x2(A);
    var G := Augment(A);
    assert G[0][0] == 0.0000000000001 && G[1][0] == 0.0;
    assert PivotRow(G, 0, 2, Eps) == 2;
    assert PivotRow(G, 0, 1, Eps) == 2;
  }
}
