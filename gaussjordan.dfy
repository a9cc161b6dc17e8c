/** `gaussJordanSteps`: Gauss-Jordan elimination on the augmented matrix [A | I],
    swapping in a pivot row when the diagonal entry is negligible, normalising the
    pivot row, clearing the pivot column in every other row and finally reading the
    inverse from the right block. When a column has no usable pivot the source throws
    `'Pivote 0 sin alternativa'`; here that outcome is `NoPivot`. */
module GaussJordanElimination {
  import opened Matrices
  import opened Steps
  import opened ForwardElimination

  /** n rows of 2n entries: the shape of [A | I]. */
  predicate IsAug(G: Matrix, n: nat)
  {
    |G| == n && forall r :: 0 <= r < n ==> |G[r]| == 2 * n
  }

  /** [A | I]: each row of A followed by the same row of the identity. */
  function Augment(A: Matrix): (G: Matrix)
    requires IsSquare(A)
    ensures IsAug(G, |A|)
    ensures forall r, c :: 0 <= r < |A| && 0 <= c < |A| ==> G[r][c] == A[r][c]
    ensures forall r, c :: 0 <= r < |A| && |A| <= c < 2 * |A| ==> G[r][c] == if c == |A| + r then 1.0 else 0.0
  {
    var n := |A|;
    var G := seq(n, r requires 0 <= r < n => A[r] + Identity(n)[r]);
    forall r | 0 <= r < n
      ensures |G[r]| == 2 * n
      ensures forall c :: 0 <= c < 2 * n ==> G[r][c] == if c < n then A[r][c] else Identity(n)[r][c - n]
    {
      assert |A[r]| == n && |Identity(n)[r]| == n;
    }
    G
  }

  /** The left n columns. */
  function LeftBlock(G: Matrix, n: nat): (L: Matrix)
    requires IsAug(G, n)
    ensures IsSquare(L) && |L| == n
    ensures forall r, c :: 0 <= r < n && 0 <= c < n ==> L[r][c] == G[r][c]
  {
    seq(n, r requires 0 <= r < n => seq(n, c requires 0 <= c < n => G[r][c]))
  }

  /** The right n columns (`aug.map(r => r.slice(n))`). */
  function RightBlock(G: Matrix, n: nat): (R: Matrix)
    requires IsAug(G, n)
    ensures IsSquare(R) && |R| == n
    ensures forall r, c :: 0 <= r < n && 0 <= c < n ==> R[r][c] == G[r][n + c]
  {
    seq(n, r requires 0 <= r < n => seq(n, c requires 0 <= c < n => G[r][n + c]))
  }

  /** A row divided by the pivot (`aug[k].map(v => v / pivot)`). */
  function DividedRow(x: seq<real>, p: real): (z: seq<real>)
    requires p != 0.0
    ensures |z| == |x|
    ensures forall j :: 0 <= j < |x| ==> z[j] == x[j] / p
  {
    seq(|x|, j requires 0 <= j < |x| => x[j] / p)
  }

  /** A row minus f times the pivot row (`aug[i].map((v, j) => v - f * aug[k][j])`). */
  function ClearedRow(x: seq<real>, y: seq<real>, f: real): (z: seq<real>)
    requires |x| == |y|
    ensures |z| == |x|
    ensures forall j :: 0 <= j < |x| ==> z[j] == x[j] - f * y[j]
  {
    seq(|x|, j requires 0 <= j < |x| => x[j] - f * y[j])
  }

  /** The working state: the augmented matrix and the steps recorded so far. */
  datatype GJ = GJ(aug: Matrix, steps: seq<Step>)

  /** What the source returns, or the exception it throws. */
  datatype Inversion = NoPivot(column: nat) | Inverted(inv: Matrix, steps: seq<Step>)

  /** The loop `for (i = 0; i < n; i++)` that clears column k in the rows i, i + 1, ...,
      skipping the pivot row and rows whose entry is already negligible. */
  function ClearFrom(s: GJ, k: nat, i: nat, eps: real): (t: GJ)
    requires IsAug(s.aug, |s.aug|) && k < |s.aug| && i <= |s.aug|
    ensures IsAug(t.aug, |s.aug|)
    decreases |s.aug| - i
  {
    if i == |s.aug| then s
    else if i == k || Negligible(s.aug[i][k], eps) then ClearFrom(s, k, i + 1, eps)
    else
      var f := s.aug[i][k];
      var N := s.aug[i := ClearedRow(s.aug[i], s.aug[k], f)];
      ClearFrom(GJ(N, s.steps + [Shown(ClearRow(i, k, f), N)]), k, i + 1, eps)
  }

  /** The swap of the pivot search, when the diagonal entry is negligible. */
  function SwapForPivot(s: GJ, k: nat, eps: real): (t: GJ)
    requires IsAug(s.aug, |s.aug|) && k < |s.aug|
    requires Negligible(s.aug[k][k], eps) ==> PivotRow(s.aug, k, k + 1, eps) < |s.aug|
    ensures IsAug(t.aug, |s.aug|) && !Negligible(t.aug[k][k], eps)
  {
    if Negligible(s.aug[k][k], eps) then
      var sw := PivotRow(s.aug, k, k + 1, eps);
      var S := Swap(s.aug, k, sw);
      GJ(S, s.steps + [Shown(RowSwap(k, sw), S)])
    else
      s
  }

  /** The augmented matrix with row k divided by p: the "Normalizar" snapshot, and the
      matrix after `aug[k] = aug[k].map(v => v / pivot)`. */
  function Normalized(G: Matrix, k: nat, p: real): (N: Matrix)
    requires k < |G| && p != 0.0
    ensures |N| == |G| && N[k] == DividedRow(G[k], p)
    ensures forall r :: 0 <= r < |G| && r != k ==> N[r] == G[r]
  {
    G[k := DividedRow(G[k], p)]
  }

  /** One round of the outer loop that does not throw. */
  function Round(s: GJ, k: nat, eps: real): (t: GJ)
    requires IsAug(s.aug, |s.aug|) && k < |s.aug|
    requires Negligible(s.aug[k][k], eps) ==> PivotRow(s.aug, k, k + 1, eps) < |s.aug|
    ensures IsAug(t.aug, |s.aug|)
  {
    var u := SwapForPivot(s, k, eps);
    var p := u.aug[k][k];
    var N := Normalized(u.aug, k, p);
    ClearFrom(GJ(N, u.steps + [Shown(Normalize(k, p), N)]), k, 0, eps)
  }

  /** The outer loop from column k on. */
  function GJFrom(s: GJ, k: nat, eps: real): Inversion
    requires IsAug(s.aug, |s.aug|) && k <= |s.aug|
    decreases |s.aug| - k
  {
    if k == |s.aug| then
      var inv := RightBlock(s.aug, |s.aug|);
      Inverted(inv, s.steps + [Shown(ReadInverse, inv)])
    else if Negligible(s.aug[k][k], eps) && PivotRow(s.aug, k, k + 1, eps) == |s.aug| then
      NoPivot(k)
    else
      GJFrom(Round(s, k, eps), k + 1, eps)
  }

  /** The whole method on A with pivot threshold eps (the source uses `Eps`). */
  function GaussJordan(A: Matrix, eps: real): Inversion
    requires IsSquare(A)
  {
    var G := Augment(A);
    GJFrom(GJ(G, [Shown(Augmented, G)]), 0, eps)
  }

  /** When the method does not throw, its last step is "read the inverse", showing
      the matrix it returns. */
  lemma {:induction false} InverseIsLastStep(s: GJ, k: nat, eps: real)
    requires IsAug(s.aug, |s.aug|) && k <= |s.aug|
    ensures GJFrom(s, k, eps).Inverted? ==>
      |GJFrom(s, k, eps).steps| > 0 &&
      GJFrom(s, k, eps).steps[|GJFrom(s, k, eps).steps| - 1] == Shown(ReadInverse, GJFrom(s, k, eps).inv)
    decreases |s.aug| - k
  {
    if k < |s.aug| && !(Negligible(s.aug[k][k], eps) && PivotRow(s.aug, k, k + 1, eps) == |s.aug|) {
      InverseIsLastStep(Round(s, k, eps), k + 1, eps);
    }
  }

  /** The inner loop over the rows, clearing column k. */
  method ClearColumn(aug: array<seq<real>>, k: nat, eps: real, steps: seq<Step>) returns (steps': seq<Step>)
    requires IsAug(aug[..], aug.Length) && k < aug.Length
    modifies aug
    ensures GJ(aug[..], steps') == ClearFrom(GJ(old(aug[..]), steps), k, 0, eps)
  {
    var n := aug.Length;
    steps' := steps;
    var i := 0;
    while i < n
      invariant 0 <= i <= n && IsAug(aug[..], n)
      invariant ClearFrom(GJ(aug[..], steps'), k, i, eps) == ClearFrom(GJ(old(aug[..]), steps), k, 0, eps)
    {
      if i == k {
        i := i + 1;
        continue;
      }
      var f := aug[i][k];
      if Negligible(f, eps) {
        i := i + 1;
        continue;
      }
      aug[i] := ClearedRow(aug[i], aug[k], f);
      steps' := steps' + [Shown(ClearRow(i, k, f), aug[..])];
      i := i + 1;
    }
  }

  /** The pivot search and swap at column k; `sw == n` is the throw. */
  method PivotSearch(aug: array<seq<real>>, k: nat, eps: real, steps: seq<Step>) returns (found: bool, steps': seq<Step>)
    requires IsAug(aug[..], aug.Length) && k < aug.Length
    modifies aug
    ensures found == !(Negligible(old(aug[k][k]), eps) && PivotRow(old(aug[..]), k, k + 1, eps) == aug.Length)
    ensures found ==> GJ(aug[..], steps') == SwapForPivot(GJ(old(aug[..]), steps), k, eps)
  {
    steps' := steps;
    found := true;
    if Negligible(aug[k][k], eps) {
      var sw := FindPivotRow(aug, k, eps);
      if sw == aug.Length {
        found := false;
        return;
      }
      aug[k], aug[sw] := aug[sw], aug[k];
      steps' := steps + [Shown(RowSwap(k, sw), aug[..])];
    }
  }

  /** `gaussJordanSteps(A)`: the steps, or the throw when a column has no pivot. */
  method GaussJordanSteps(A: Matrix, eps: real) returns (r: Inversion)
    requires IsSquare(A)
    ensures r == GaussJordan(A, eps)
  {
    var n := |A|;
    var aug := new seq<real>[n](i requires 0 <= i < n => A[i] + Identity(n)[i]);
    assert aug[..] == Augment(A);
    var steps := [Shown(Augmented, aug[..])];
    ghost var target := GaussJordan(A, eps);
    var k := 0;
    while k < n
      invariant 0 <= k <= n && aug.Length == n && IsAug(aug[..], n)
      invariant GJFrom(GJ(aug[..], steps), k, eps) == target
    {
      var found;
      found, steps := PivotSearch(aug, k, eps, steps);
      if !found {
        return NoPivot(k);
      }
      var pivot := aug[k][k];
      var shown := Normalized(aug[..], k, pivot);
      aug[k] := DividedRow(aug[k], pivot);
      assert aug[..] == shown;
      steps := steps + [Shown(Normalize(k, pivot), shown)];
      steps := ClearColumn(aug, k, eps, steps);
      k := k + 1;
    }
    var inv := RightBlock(aug[..], n);
    r := Inverted(inv, steps + [Shown(ReadInverse, inv)]);
  }
}
