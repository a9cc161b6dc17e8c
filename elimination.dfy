/** `detEliminationWithSteps`: the determinant by forward elimination with row
    swaps, recording a step after every swap, pivot and row elimination, and
    stopping early with determinant 0 when a pivot column has nothing usable. */
module ForwardElimination {
  import opened Matrices
  import opened Determinant
  import opened Steps

  /** The pivot threshold `1e-12` of the source. */
  const Eps: real := 0.000000000001

  /** The source's test `Math.abs(x) < eps`. Written so that eps = 0 means "exactly 0",
      the idealised exact-arithmetic reading of the same code. */
  predicate Negligible(x: real, eps: real)
  {
    x == 0.0 || (-eps < x && x < eps)
  }

  /** The first row at or after `from` whose entry in column i is not negligible, or
      the number of rows when there is none: the loop
      `while (sw < n && Math.abs(M[sw][i]) < 1e-12) sw++`. */
  function PivotRow(M: Matrix, i: nat, from: nat, eps: real): (sw: nat)
    requires forall r :: 0 <= r < |M| ==> i < |M[r]|
    requires from <= |M|
    ensures from <= sw <= |M|
    ensures sw < |M| ==> !Negligible(M[sw][i], eps)
    ensures forall r :: from <= r < sw ==> Negligible(M[r][i], eps)
    decreases |M| - from
  {
    if from == |M| || !Negligible(M[from][i], eps) then from else PivotRow(M, i, from + 1, eps)
  }

  /** Row x after `for (c = i; c < n; c++) x[c] -= f * y[c]`. */
  function Eliminated(x: seq<real>, y: seq<real>, f: real, i: nat): (z: seq<real>)
    requires |x| == |y|
    ensures |z| == |x|
    ensures forall c :: 0 <= c < i && c < |x| ==> z[c] == x[c]
    ensures forall c :: i <= c < |x| ==> z[c] == x[c] - f * y[c]
  {
    seq(|x|, c requires 0 <= c < |x| => if c < i then x[c] else x[c] - f * y[c])
  }

  /** The working state of the method: the matrix M, the determinant accumulated so
      far and the steps recorded so far. */
  datatype Elim = Elim(M: Matrix, det: real, steps: seq<Step>)

  /** The elimination of rows r, r + 1, ... below pivot row i, each recorded by a step
      that shows the whole working matrix. */
  function EliminateBelow(s: Elim, i: nat, r: nat, p: real): (t: Elim)
    requires IsSquare(s.M) && i < r <= |s.M| && p != 0.0
    ensures IsSquare(t.M) && |t.M| == |s.M| && t.det == s.det
    decreases |s.M| - r
  {
    if r == |s.M| then s
    else
      var f := s.M[r][i] / p;
      var N := s.M[r := Eliminated(s.M[r], s.M[i], f, i)];
      EliminateBelow(Elim(N, s.det, s.steps + [Shown(EliminateRow(r, i, f), N)]), i, r + 1, p)
  }

  /** The block `if (Math.abs(M[i][i]) < 1e-12) { ... }` when it finds a row to swap in. */
  function SwapPivot(s: Elim, i: nat, eps: real): (t: Elim)
    requires IsSquare(s.M) && i < |s.M|
    requires Negligible(s.M[i][i], eps) ==> PivotRow(s.M, i, i + 1, eps) < |s.M|
    ensures IsSquare(t.M) && |t.M| == |s.M| && !Negligible(t.M[i][i], eps)
  {
    if Negligible(s.M[i][i], eps) then
      var sw := PivotRow(s.M, i, i + 1, eps);
      SwapSquare(s.M, i, sw);
      var S := Swap(s.M, i, sw);
      Elim(S, - s.det, s.steps + [Shown(RowSwap(i, sw), S)])
    else
      s
  }

  /** `const p = M[i][i]; det *= p;` and the "Pivote" step. */
  function TakePivot(s: Elim, i: nat): Elim
    requires i < |s.M| && i < |s.M[i]|
  {
    Elim(s.M, s.det * s.M[i][i], s.steps + [Shown(Pivot(i, s.M[i][i]), s.M)])
  }

  /** The loop of `detEliminationWithSteps` from pivot column i on. */
  function ElimFrom(s: Elim, i: nat, eps: real): DetInfo
    requires IsSquare(s.M) && i <= |s.M|
    decreases |s.M| - i
  {
    if i == |s.M| then
      DetInfo(s.det, s.steps + [Shown(PivotProduct(s.det), s.M)])
    else if Negligible(s.M[i][i], eps) && PivotRow(s.M, i, i + 1, eps) == |s.M| then
      DetInfo(0.0, s.steps + [Shown(ZeroPivot(i), s.M)])
    else
      ElimFrom(Advance(s, i, eps), i + 1, eps)
  }

  /** One round of the loop that does not exit: the swap if needed, the pivot and the
      elimination below it. */
  function Advance(s: Elim, i: nat, eps: real): (e: Elim)
    requires IsSquare(s.M) && i < |s.M|
    requires Negligible(s.M[i][i], eps) ==> PivotRow(s.M, i, i + 1, eps) < |s.M|
    ensures IsSquare(e.M) && |e.M| == |s.M|
  {
    var t := TakePivot(SwapPivot(s, i, eps), i);
    EliminateBelow(t, i, i + 1, t.M[i][i])
  }

  /** The whole method on A with threshold eps (the source uses `Eps`). */
  function Elimination(A: Matrix, eps: real): DetInfo
    requires IsSquare(A)
  {
    ElimFrom(Elim(A, 1.0, [Shown(EliminationStart, A)]), 0, eps)
  }

  /** The search `sw = i + 1; while (sw < n && Math.abs(M[sw][i]) < 1e-12) sw++`. */
  method FindPivotRow(M: array<seq<real>>, i: nat, eps: real) returns (sw: nat)
    requires i < M.Length && forall r :: 0 <= r < M.Length ==> i < |M[r]|
    ensures sw == PivotRow(M[..], i, i + 1, eps)
  {
    sw := i + 1;
    while sw < M.Length && Negligible(M[sw][i], eps)
      invariant i + 1 <= sw <= M.Length
      invariant PivotRow(M[..], i, sw, eps) == PivotRow(M[..], i, i + 1, eps)
    {
      sw := sw + 1;
    }
  }

  /** `for (let c = i; c < n; c++) M[r][c] -= f * M[i][c]` */
  method SubtractRow(M: array<seq<real>>, r: nat, i: nat, f: real)
    requires IsSquare(M[..]) && i < r < M.Length
    modifies M
    ensures M[..] == old(M[..])[r := Eliminated(old(M[r]), old(M[i]), f, i)]
  {
    ghost var before := M[..];
    var n := M.Length;
    var c := i;
    while c < n
      invariant i <= c <= n && |M[r]| == n
      invariant forall k :: 0 <= k < n && k != r ==> M[k] == before[k]
      invariant forall k :: 0 <= k < n ==> M[r][k] == if i <= k < c then before[r][k] - f * before[i][k] else before[r][k]
    {
      M[r] := M[r][c := M[r][c] - f * M[i][c]];
      c := c + 1;
    }
    assert M[r] == Eliminated(before[r], before[i], f, i);
    assert M[..] == before[r := M[r]];
  }

  /** The loop over the rows below pivot row i, recording one step per row. */
  method EliminateColumn(M: array<seq<real>>, i: nat, p: real, det: real, steps: seq<Step>) returns (steps': seq<Step>)
    requires IsSquare(M[..]) && i < M.Length && p != 0.0
    modifies M
    ensures Elim(M[..], det, steps') == EliminateBelow(Elim(old(M[..]), det, steps), i, i + 1, p)
  {
    var n := M.Length;
    steps' := steps;
    var r := i + 1;
    while r < n
      invariant i + 1 <= r <= n && IsSquare(M[..])
      invariant EliminateBelow(Elim(M[..], det, steps'), i, r, p) == EliminateBelow(Elim(old(M[..]), det, steps), i, i + 1, p)
    {
      var f := M[r][i] / p;
      SubtractRow(M, r, i, f);
      steps' := steps' + [Shown(EliminateRow(r, i, f), M[..])];
      r := r + 1;
    }
  }

  /** The swap of the pivot search: rows i and sw trade places and det changes sign. */
  method SwapIn(M: array<seq<real>>, i: nat, sw: nat, eps: real, det: real, steps: seq<Step>) returns (det': real, steps': seq<Step>)
    requires IsSquare(M[..]) && i < M.Length && Negligible(M[i][i], eps)
    requires sw == PivotRow(M[..], i, i + 1, eps) < M.Length
    modifies M
    ensures Elim(M[..], det', steps') == SwapPivot(Elim(old(M[..]), det, steps), i, eps)
  {
    SwapSquare(M[..], i, sw);
    M[i], M[sw] := M[sw], M[i];
    det' := - det;
    steps' := steps + [Shown(RowSwap(i, sw), M[..])];
  }

  /** `const p = M[i][i]; det *= p;`, the "Pivote" step and the elimination below it. */
  method PivotAndEliminate(M: array<seq<real>>, i: nat, eps: real, det: real, steps: seq<Step>) returns (det': real, steps': seq<Step>)
    requires IsSquare(M[..]) && i < M.Length && !Negligible(M[i][i], eps)
    modifies M
    ensures IsSquare(M[..])
    ensures Elim(M[..], det', steps') == EliminateBelow(TakePivot(Elim(old(M[..]), det, steps), i), i, i + 1, old(M[i][i]))
  {
    var p := M[i][i];
    det' := det * p;
    steps' := steps + [Shown(Pivot(i, p), M[..])];
    steps' := EliminateColumn(M, i, p, det', steps');
  }

  lemma {:induction false} ElimFromUnfold(s: Elim, i: nat, eps: real)
    requires IsSquare(s.M) && i < |s.M|
    ensures Negligible(s.M[i][i], eps) && PivotRow(s.M, i, i + 1, eps) == |s.M| ==>
      ElimFrom(s, i, eps) == DetInfo(0.0, s.steps + [Shown(ZeroPivot(i), s.M)])
    ensures !(Negligible(s.M[i][i], eps) && PivotRow(s.M, i, i + 1, eps) == |s.M|) ==>
      ElimFrom(s, i, eps) == ElimFrom(Advance(s, i, eps), i + 1, eps)
  {
  }

  /** One round of the outer loop; `stop` is the early exit when column i has no
      usable pivot, and then nothing has changed yet. */
  method EliminationRound(M: array<seq<real>>, i: nat, eps: real, det: real, steps: seq<Step>) returns (stop: bool, det': real, steps': seq<Step>)
    requires IsSquare(M[..]) && i < M.Length
    modifies M
    ensures IsSquare(M[..])
    ensures stop == (Negligible(old(M[i][i]), eps) && PivotRow(old(M[..]), i, i + 1, eps) == M.Length)
    ensures stop ==> M[..] == old(M[..]) && steps' == steps
    ensures !stop ==> Elim(M[..], det', steps') == Advance(Elim(old(M[..]), det, steps), i, eps)
  {
    det', steps' := det, steps;
    if Negligible(M[i][i], eps) {
      var sw := FindPivotRow(M, i, eps);
      if sw == M.Length {
        return true, det', steps';
      }
      det', steps' := SwapIn(M, i, sw, eps, det', steps');
    }
    stop := false;
    det', steps' := PivotAndEliminate(M, i, eps, det', steps');
  }

  /** `detEliminationWithSteps(A)`: works on a copy of A (an array of rows), swaps rows,
      updates det and records a snapshot of the working matrix with every step. */
  method DetEliminationWithSteps(A: Matrix, eps: real) returns (det: real, steps: seq<Step>)
    requires IsSquare(A)
    ensures DetInfo(det, steps) == Elimination(A, eps)
  {
    var n := |A|;
    var M := new seq<real>[n](r requires 0 <= r < n => A[r]);
    det := 1.0;
    steps := [Shown(EliminationStart, M[..])];
    assert M[..] == A;
    ghost var target := Elimination(A, eps);
    var i := 0;
    while i < n
      invariant 0 <= i <= n && M.Length == n && IsSquare(M[..])
      invariant ElimFrom(Elim(M[..], det, steps), i, eps) == target
    {
      ghost var s := Elim(M[..], det, steps);
      ElimFromUnfold(s, i, eps);
      var stop;
      stop, det, steps := EliminationRound(M, i, eps, det, steps);
      if stop {
        det := 0.0;
        steps := steps + [Shown(ZeroPivot(i), M[..])];
        return;
      }
      i := i + 1;
    }
    steps := steps + [Shown(PivotProduct(det), M[..])];
  }

  // ---------------------------------------------------------------------------
  // What the recorded determinant means.

  /** The trailing block of rows i.. and columns i.. that the loop still has to reduce. */
  function Bottom(M: Matrix, i: nat): (B: Matrix)
    requires IsSquare(M) && i <= |M|
    ensures IsSquare(B) && |B| == |M| - i
    ensures forall r, c :: 0 <= r < |B| && 0 <= c < |B| ==> B[r][c] == M[r + i][c + i]
  {
    seq(|M| - i, r requires 0 <= r < |M| - i =>
      seq(|M| - i, c requires 0 <= c < |M| - i => M[r + i][c + i]))
  }

  lemma {:induction false} BottomOfAll(M: Matrix)
    requires IsSquare(M)
    ensures Bottom(M, 0) == M
  {
    SameEntries(Bottom(M, 0), M);
  }

  lemma {:induction false} MinorOfBottom(M: Matrix, i: nat)
    requires IsSquare(M) && i < |M|
    ensures Minor(Bottom(M, i), 0, 0) == Bottom(M, i + 1)
  {
    SameEntries(Minor(Bottom(M, i), 0, 0), Bottom(M, i + 1));
  }

  lemma {:induction false} BottomOfSwap(M: Matrix, i: nat, a: nat, b: nat)
    requires IsSquare(M) && i <= a < |M| && i <= b < |M|
    ensures IsSquare(Swap(M, a, b))
    ensures Bottom(Swap(M, a, b), i) == Swap(Bottom(M, i), a - i, b - i)
  {
    SwapSquare(M, a, b);
    SwapSquare(Bottom(M, i), a - i, b - i);
    SameEntries(Bottom(Swap(M, a, b), i), Swap(Bottom(M, i), a - i, b - i));
  }

  lemma {:induction false} BottomOfEliminated(M: Matrix, i: nat, r: nat, f: real)
    requires IsSquare(M) && i < r < |M|
    ensures IsSquare(M[r := Eliminated(M[r], M[i], f, i)])
    ensures Bottom(M[r := Eliminated(M[r], M[i], f, i)], i) == AddRow(Bottom(M, i), r - i, 0, - f)
  {
    var N := M[r := Eliminated(M[r], M[i], f, i)];
    var B := Bottom(M, i);
    var ri := r - i;
    var A := AddRow(B, ri, 0, - f);
    assert IsSquare(A);
    forall k | 0 <= k < |B|
      ensures A[ri][k] == N[r][k + i]
    {
      assert A[ri][k] == B[ri][k] + (- f) * B[0][k];
    }
    SameEntries(Bottom(N, i), A);
  }

  /** x - (x / p) * p, the entry the source subtracts down to 0. */
  lemma {:induction false} Cancel(x: real, p: real)
    requires p != 0.0
    ensures x - (x / p) * p == 0.0
  {
  }

  /** Eliminating below pivot row i clears column i under the pivot, leaves rows 0..i
      and columns 0..i-1 as they were, keeps the determinant of the trailing block and
      records one step per eliminated row. */
  lemma {:induction false} EliminateBelowFacts(s: Elim, i: nat, r: nat, p: real)
    requires IsSquare(s.M) && i < r <= |s.M| && p == s.M[i][i] && p != 0.0
    requires forall k :: i < k < r ==> s.M[k][i] == 0.0
    ensures var e := EliminateBelow(s, i, r, p);
      && (forall k :: 0 <= k <= i ==> e.M[k] == s.M[k])
      && (forall k, c :: 0 <= k < |s.M| && 0 <= c < i ==> e.M[k][c] == s.M[k][c])
      && (forall k :: i < k < |s.M| ==> e.M[k][i] == 0.0)
      && Det(Bottom(e.M, i)) == Det(Bottom(s.M, i))
      && |e.steps| == |s.steps| + (|s.M| - r)
    decreases |s.M| - r
  {
    if r < |s.M| {
      var f := s.M[r][i] / p;
      var N := s.M[r := Eliminated(s.M[r], s.M[i], f, i)];
      Cancel(s.M[r][i], p);
      assert N[r][i] == 0.0;
      BottomOfEliminated(s.M, i, r, f);
      AddRowKeepsDet(Bottom(s.M, i), r - i, 0, - f);
      EliminateBelowFacts(Elim(N, s.det, s.steps + [Shown(EliminateRow(r, i, f), N)]), i, r + 1, p);
    }
  }

  /** Whether a run ended at the early exit, which is recorded as its last step. */
  predicate Exited(r: DetInfo)
  {
    |r.steps| > 0 && r.steps[|r.steps| - 1].kind.ZeroPivot?
  }

  lemma {:induction false} SignsCancel(a: real, b: real)
    ensures (- a) * (- b) == a * b
  {
  }

  /** The pivot search keeps det * Det(Bottom): a swap negates both. */
  lemma {:induction false} SwapPivotDet(s: Elim, i: nat, eps: real)
    requires IsSquare(s.M) && i < |s.M|
    requires Negligible(s.M[i][i], eps) ==> PivotRow(s.M, i, i + 1, eps) < |s.M|
    ensures SwapPivot(s, i, eps).det * Det(Bottom(SwapPivot(s, i, eps).M, i)) == s.det * Det(Bottom(s.M, i))
  {
    if Negligible(s.M[i][i], eps) {
      var sw := PivotRow(s.M, i, i + 1, eps);
      BottomOfSwap(s.M, i, i, sw);
      SwapRows(Bottom(s.M, i), 0, sw - i);
      SignsCancel(s.det, Det(Bottom(s.M, i)));
    }
  }

  lemma {:induction false} TimesOne(a: real, b: real)
    requires b == 1.0
    ensures a == a * b
  {
  }

  /** With exact pivot tests (eps = 0) the early exit only happens on a block whose
      first column is 0. */
  lemma {:induction false} ExitMeansZeroColumn(M: Matrix, i: nat)
    requires IsSquare(M) && i < |M|
    requires Negligible(M[i][i], 0.0) && PivotRow(M, i, i + 1, 0.0) == |M|
    ensures Det(Bottom(M, i)) == 0.0
  {
    ZeroColumn(Bottom(M, i), 0);
  }

  /** What the loop's result r promises when v is the determinant it should report:
      0 at the early exit, and v otherwise or whenever the pivot tests are exact. */
  predicate Reports(r: DetInfo, eps: real, v: real)
  {
    (Exited(r) ==> r.det == 0.0) && (!Exited(r) || eps == 0.0 ==> r.det == v)
  }

  /** det times the determinant of the block still to reduce. */
  function Value(s: Elim, i: nat): real
    requires IsSquare(s.M) && i <= |s.M|
  {
    s.det * Det(Bottom(s.M, i))
  }

  /** The promise for the loop from column i: it returns det * Det(Bottom(M, i)) unless
      it takes the early exit, which returns 0. */
  predicate LoopReports(s: Elim, i: nat, eps: real, v: real)
    requires IsSquare(s.M) && i <= |s.M|
  {
    Reports(ElimFrom(s, i, eps), eps, v)
  }

  /** The loop from column i on s and the loop from column i + 1 on e report the same
      determinant and both exit early or neither does. */
  predicate SameRun(s: Elim, i: nat, e: Elim, eps: real)
    requires IsSquare(s.M) && i < |s.M| && IsSquare(e.M) && |e.M| == |s.M|
  {
    ElimFrom(s, i, eps).det == ElimFrom(e, i + 1, eps).det
      && Exited(ElimFrom(s, i, eps)) == Exited(ElimFrom(e, i + 1, eps))
  }

  lemma {:induction false} ElimFromDet(s: Elim, i: nat, eps: real)
    requires IsSquare(s.M) && i <= |s.M|
    ensures LoopReports(s, i, eps, Value(s, i))
    decreases |s.M| - i, 1
  {
    if i == |s.M| {
      LoopEnd(s, i, eps);
    } else if Negligible(s.M[i][i], eps) && PivotRow(s.M, i, i + 1, eps) == |s.M| {
      LoopExit(s, i, eps);
    } else {
      LoopRound(s, i, eps);
    }
  }

  /** A round that does not exit keeps the promise, by the promise for the next column. */
  lemma {:induction false} LoopRound(s: Elim, i: nat, eps: real)
    requires IsSquare(s.M) && i < |s.M|
    requires !(Negligible(s.M[i][i], eps) && PivotRow(s.M, i, i + 1, eps) == |s.M|)
    ensures LoopReports(s, i, eps, Value(s, i))
    decreases |s.M| - i, 0
  {
    var e := Advance(s, i, eps);
    ElimFromDet(e, i + 1, eps);
    AdvanceDet(s, i, eps);
    ElimFromAdvance(s, i, eps);
    Transfer(s, i, eps, e, Value(e, i + 1));
  }

  /** The promise for the next column carries over to column i when the two runs give
      the same result and det * Det(Bottom) is the same for both states. */
  lemma {:induction false} Transfer(s: Elim, i: nat, eps: real, e: Elim, v: real)
    requires IsSquare(s.M) && i < |s.M| && IsSquare(e.M) && |e.M| == |s.M|
    requires LoopReports(e, i + 1, eps, v)
    requires SameRun(s, i, e, eps)
    ensures LoopReports(s, i, eps, v)
  {
  }

  lemma {:induction false} LoopEnd(s: Elim, i: nat, eps: real)
    requires IsSquare(s.M) && i == |s.M|
    ensures LoopReports(s, i, eps, Value(s, i))
  {
    var r := ElimFrom(s, i, eps);
    assert r.det == s.det;
    assert r.steps[|r.steps| - 1].kind == PivotProduct(s.det);
    assert Det(Bottom(s.M, i)) == 1.0;
    TimesOne(s.det, Det(Bottom(s.M, i)));
  }

  lemma {:induction false} LoopExit(s: Elim, i: nat, eps: real)
    requires IsSquare(s.M) && i < |s.M|
    requires Negligible(s.M[i][i], eps) && PivotRow(s.M, i, i + 1, eps) == |s.M|
    ensures LoopReports(s, i, eps, Value(s, i))
  {
    var r := ElimFrom(s, i, eps);
    assert r == DetInfo(0.0, s.steps + [Shown(ZeroPivot(i), s.M)]);
    assert r.steps[|r.steps| - 1].kind == ZeroPivot(i);
    if eps == 0.0 {
      ExitMeansZeroColumn(s.M, i);
      ZeroFactor(s.det, Det(Bottom(s.M, i)));
    }
  }

  lemma {:induction false} ZeroFactor(a: real, b: real)
    requires b == 0.0
    ensures 0.0 == a * b
  {
  }

  lemma {:induction false} ElimFromAdvance(s: Elim, i: nat, eps: real)
    requires IsSquare(s.M) && i < |s.M|
    requires !(Negligible(s.M[i][i], eps) && PivotRow(s.M, i, i + 1, eps) == |s.M|)
    ensures SameRun(s, i, Advance(s, i, eps), eps)
  {
  }

  /** Eliminating below a non-zero pivot p leaves a block whose determinant is p times
      that of the next block. */
  lemma {:induction false} EliminatedBlockDet(t: Elim, i: nat)
    requires IsSquare(t.M) && i < |t.M| && t.M[i][i] != 0.0
    ensures Det(Bottom(t.M, i)) == t.M[i][i] * Det(Bottom(EliminateBelow(t, i, i + 1, t.M[i][i]).M, i + 1))
  {
    var e := EliminateBelow(t, i, i + 1, t.M[i][i]);
    EliminateBelowFacts(t, i, i + 1, t.M[i][i]);
    FirstColumnZeroBelow(Bottom(e.M, i));
    MinorOfBottom(e.M, i);
  }

  lemma {:induction false} MovePivot(edet: real, tdet: real, p: real, d1: real, d0: real)
    requires edet == tdet * p && d0 == p * d1
    ensures edet * d1 == tdet * d0
  {
  }

  /** Taking a non-zero pivot and eliminating below it keeps det * Det(Bottom): the
      pivot moves from the block into det. */
  lemma {:induction false} PivotStepDet(t0: Elim, i: nat)
    requires IsSquare(t0.M) && i < |t0.M| && t0.M[i][i] != 0.0
    ensures var e := EliminateBelow(TakePivot(t0, i), i, i + 1, t0.M[i][i]);
      e.det * Det(Bottom(e.M, i + 1)) == t0.det * Det(Bottom(t0.M, i))
  {
    var t := TakePivot(t0, i);
    var e := EliminateBelow(t, i, i + 1, t0.M[i][i]);
    EliminatedBlockDet(t, i);
    MovePivot(e.det, t0.det, t0.M[i][i], Det(Bottom(e.M, i + 1)), Det(Bottom(t0.M, i)));
  }

  /** One round keeps det * Det(Bottom): the swap negates both, the pivot p moves from
      the block into det, and the elimination leaves the block's determinant alone. */
  lemma {:induction false} AdvanceDet(s: Elim, i: nat, eps: real)
    requires IsSquare(s.M) && i < |s.M|
    requires Negligible(s.M[i][i], eps) ==> PivotRow(s.M, i, i + 1, eps) < |s.M|
    ensures Value(Advance(s, i, eps), i + 1) == Value(s, i)
  {
    var t0 := SwapPivot(s, i, eps);
    SwapPivotDet(s, i, eps);
    PivotStepDet(t0, i);
    assert Advance(s, i, eps) == EliminateBelow(TakePivot(t0, i), i, i + 1, t0.M[i][i]);
  }

  /** The determinant the method reports is Det(A) unless it stopped at the early
      exit, where it reports 0. */
  lemma {:induction false} EliminationDet(A: Matrix, eps: real)
    requires IsSquare(A)
    ensures Exited(Elimination(A, eps)) ==> Elimination(A, eps).det == 0.0
    ensures !Exited(Elimination(A, eps)) ==> Elimination(A, eps).det == Det(A)
  {
    ElimFromDet(Elim(A, 1.0, [Shown(EliminationStart, A)]), 0, eps);
    BottomOfAll(A);
  }

  /** On a 1 x 1 matrix the elimination reports the entry, or 0 when the entry is
      below the pivot threshold. */
  lemma {:induction false} Elimination1x1(m: Matrix, eps: real)
    requires IsSquare(m) && |m| == 1
    ensures Elimination(m, eps).det == if Negligible(m[0][0], eps) then 0.0 else m[0][0]
  {
    var s := Elim(m, 1.0, [Shown(EliminationStart, m)]);
    assert PivotRow(m, 0, 1, eps) == 1;
    if !Negligible(m[0][0], eps) {
      var t := TakePivot(SwapPivot(s, 0, eps), 0);
      assert Advance(s, 0, eps) == t;
      assert ElimFrom(t, 1, eps).det == 1.0 * m[0][0];
    }
  }

  /** With exact pivot tests the reported determinant is always Det(A). */
  lemma {:induction false} ExactEliminationDet(A: Matrix)
    requires IsSquare(A)
    ensures Elimination(A, 0.0).det == Det(A)
  {
    ElimFromDet(Elim(A, 1.0, [Shown(EliminationStart, A)]), 0, 0.0);
    BottomOfAll(A);
  }
  // ---------------------------------------------------------------------------
  // The final matrix and the product of the pivots.

  /** The number of row swaps recorded in steps. */
  function SwapCount(steps: seq<Step>): (k: nat)
    ensures k <= |steps|
  {
    if steps == [] then 0
    else SwapCount(steps[..|steps| - 1]) + (if steps[|steps| - 1].kind.RowSwap? then 1 else 0)
  }

  /** x negated k times: x itself when k is even, -x when k is odd. */
  function NegatedTimes(k: nat, x: real): real
  {
    if k % 2 == 0 then x else - x
  }

  /** M[0][0] * M[1][1] * ... * M[n - 1][n - 1] */
  function DiagonalProduct(M: Matrix, n: nat): real
    requires IsSquare(M) && n <= |M|
  {
    if n == 0 then 1.0 else DiagonalProduct(M, n - 1) * M[n - 1][n - 1]
  }

  /** Columns 0..i-1 hold only zeros below the diagonal. */
  predicate ZeroBelow(M: Matrix, i: nat)
    requires IsSquare(M) && i <= |M|
  {
    forall k, c :: 0 <= c < i && c < k < |M| ==> M[k][c] == 0.0
  }

  predicate UpperTriangular(U: Matrix)
  {
    IsSquare(U) && ZeroBelow(U, |U|)
  }

  /** The state before pivot column i: the columns before i are reduced, and det is
      the product of the pivots taken so far, negated once per recorded swap. */
  predicate Reduced(s: Elim, i: nat)
    requires IsSquare(s.M) && i <= |s.M|
  {
    ZeroBelow(s.M, i) && s.det == NegatedTimes(SwapCount(s.steps), DiagonalProduct(s.M, i))
  }

  /** A run that does not exit ends with the "product of the pivots" step, whose
      snapshot U is upper triangular, and reports the product of U's diagonal with one
      sign change per row swap it recorded. */
  predicate EndsTriangular(r: DetInfo, n: nat)
  {
    !Exited(r) ==>
      && |r.steps| > 0
      && r.steps[|r.steps| - 1].kind == PivotProduct(r.det)
      && r.steps[|r.steps| - 1].matrix.Some?
      && var U := r.steps[|r.steps| - 1].matrix.value;
        && |U| == n
        && UpperTriangular(U)
        && r.det == NegatedTimes(SwapCount(r.steps), DiagonalProduct(U, n))
  }

  lemma {:induction false} SwapCountAppend(steps: seq<Step>, st: Step)
    ensures SwapCount(steps + [st]) == SwapCount(steps) + (if st.kind.RowSwap? then 1 else 0)
  {
    assert (steps + [st])[..|steps|] == steps;
  }

  /** Eliminating rows records no swap. */
  lemma {:induction false} EliminateBelowSwaps(s: Elim, i: nat, r: nat, p: real)
    requires IsSquare(s.M) && i < r <= |s.M| && p != 0.0
    ensures SwapCount(EliminateBelow(s, i, r, p).steps) == SwapCount(s.steps)
    decreases |s.M| - r
  {
    if r < |s.M| {
      var f := s.M[r][i] / p;
      var N := s.M[r := Eliminated(s.M[r], s.M[i], f, i)];
      SwapCountAppend(s.steps, Shown(EliminateRow(r, i, f), N));
      EliminateBelowSwaps(Elim(N, s.det, s.steps + [Shown(EliminateRow(r, i, f), N)]), i, r + 1, p);
    }
  }

  /** The product of the first n diagonal entries depends on those entries only. */
  lemma {:induction false} DiagonalProductSame(M: Matrix, N: Matrix, n: nat)
    requires IsSquare(M) && IsSquare(N) && n <= |M| && n <= |N|
    requires forall c :: 0 <= c < n ==> M[c][c] == N[c][c]
    ensures DiagonalProduct(M, n) == DiagonalProduct(N, n)
  {
    if n > 0 {
      DiagonalProductSame(M, N, n - 1);
    }
  }

  /** The pivot search keeps the reduced columns and the signed product: a swap
      exchanges two rows at or below i and is counted as one more sign change. */
  lemma {:induction false} SwapPivotReduced(s: Elim, i: nat, eps: real)
    requires IsSquare(s.M) && i < |s.M| && Reduced(s, i)
    requires Negligible(s.M[i][i], eps) ==> PivotRow(s.M, i, i + 1, eps) < |s.M|
    ensures Reduced(SwapPivot(s, i, eps), i)
  {
    if Negligible(s.M[i][i], eps) {
      var sw := PivotRow(s.M, i, i + 1, eps);
      var t := SwapPivot(s, i, eps);
      assert t.M == Swap(s.M, i, sw);
      SwapCountAppend(s.steps, Shown(RowSwap(i, sw), t.M));
      DiagonalProductSame(s.M, t.M, i);
      forall k, c | 0 <= c < i && c < k < |t.M|
        ensures t.M[k][c] == 0.0
      {
        if k == i {
          assert t.M[k] == s.M[sw];
        } else if k == sw {
          assert t.M[k] == s.M[i];
        } else {
          assert t.M[k] == s.M[k];
        }
      }
    }
  }

  /** A state e one column further on than a Reduced state t0, with det and the
      diagonal product both multiplied by p and no swap added, is Reduced. */
  lemma {:induction false} ReducedAfter(t0: Elim, e: Elim, i: nat, p: real)
    requires IsSquare(t0.M) && i < |t0.M| && Reduced(t0, i)
    requires IsSquare(e.M) && |e.M| == |t0.M| && ZeroBelow(e.M, i + 1)
    requires DiagonalProduct(e.M, i + 1) == DiagonalProduct(t0.M, i) * p
    requires e.det == t0.det * p && SwapCount(e.steps) == SwapCount(t0.steps)
    ensures Reduced(e, i + 1)
  {
  }

  /** Eliminating below a non-zero pivot reduces column i and leaves the diagonal
      entries up to i alone. */
  lemma {:induction false} EliminatedColumn(t: Elim, i: nat)
    requires IsSquare(t.M) && i < |t.M| && t.M[i][i] != 0.0 && ZeroBelow(t.M, i)
    ensures var e := EliminateBelow(t, i, i + 1, t.M[i][i]);
      && ZeroBelow(e.M, i + 1)
      && DiagonalProduct(e.M, i + 1) == DiagonalProduct(t.M, i) * t.M[i][i]
  {
    var e := EliminateBelow(t, i, i + 1, t.M[i][i]);
    EliminateBelowFacts(t, i, i + 1, t.M[i][i]);
    forall k, c | 0 <= c < i + 1 && c < k < |e.M|
      ensures e.M[k][c] == 0.0
    {
      if c < i {
        assert e.M[k][c] == t.M[k][c];
      }
    }
    DiagonalProductSame(e.M, t.M, i);
    assert e.M[i] == t.M[i];
  }

  /** What taking the pivot and eliminating below it does to the reduced columns,
      the diagonal product, det and the recorded swaps. */
  lemma {:induction false} PivotStepFacts(t0: Elim, i: nat, e: Elim)
    requires IsSquare(t0.M) && i < |t0.M| && t0.M[i][i] != 0.0 && ZeroBelow(t0.M, i)
    requires e == EliminateBelow(TakePivot(t0, i), i, i + 1, t0.M[i][i])
    ensures IsSquare(e.M) && |e.M| == |t0.M|
      && ZeroBelow(e.M, i + 1)
      && DiagonalProduct(e.M, i + 1) == DiagonalProduct(t0.M, i) * t0.M[i][i]
      && e.det == t0.det * t0.M[i][i]
      && SwapCount(e.steps) == SwapCount(t0.steps)
  {
    var p := t0.M[i][i];
    var t := TakePivot(t0, i);
    assert t.M == t0.M && t.det == t0.det * p;
    EliminatedColumn(t, i);
    EliminateBelowSwaps(t, i, i + 1, p);
    SwapCountAppend(t0.steps, Shown(Pivot(i, p), t0.M));
  }

  /** Taking the pivot and eliminating below it reduces column i and multiplies det
      by the new diagonal entry. */
  lemma {:induction false} PivotStepReduced(t0: Elim, i: nat)
    requires IsSquare(t0.M) && i < |t0.M| && t0.M[i][i] != 0.0 && Reduced(t0, i)
    ensures Reduced(EliminateBelow(TakePivot(t0, i), i, i + 1, t0.M[i][i]), i + 1)
  {
    var e := EliminateBelow(TakePivot(t0, i), i, i + 1, t0.M[i][i]);
    PivotStepFacts(t0, i, e);
    ReducedAfter(t0, e, i, t0.M[i][i]);
  }

  /** One round keeps the state Reduced, one column further on. */
  lemma {:induction false} AdvanceReduced(s: Elim, i: nat, eps: real)
    requires IsSquare(s.M) && i < |s.M| && Reduced(s, i)
    requires Negligible(s.M[i][i], eps) ==> PivotRow(s.M, i, i + 1, eps) < |s.M|
    ensures Reduced(Advance(s, i, eps), i + 1)
  {
    var t0 := SwapPivot(s, i, eps);
    SwapPivotReduced(s, i, eps);
    PivotStepReduced(t0, i);
    assert Advance(s, i, eps) == EliminateBelow(TakePivot(t0, i), i, i + 1, t0.M[i][i]);
  }

  /** The loop past the last column ends on the product of the pivots. */
  lemma {:induction false} LoopEndTriangular(s: Elim, eps: real)
    requires IsSquare(s.M) && Reduced(s, |s.M|)
    ensures EndsTriangular(ElimFrom(s, |s.M|, eps), |s.M|)
  {
    var r := ElimFrom(s, |s.M|, eps);
    assert r.steps == s.steps + [Shown(PivotProduct(s.det), s.M)];
    SwapCountAppend(s.steps, Shown(PivotProduct(s.det), s.M));
  }

  lemma {:induction false} ElimFromTriangular(s: Elim, i: nat, eps: real)
    requires IsSquare(s.M) && i <= |s.M| && Reduced(s, i)
    ensures EndsTriangular(ElimFrom(s, i, eps), |s.M|)
    decreases |s.M| - i
  {
    if i == |s.M| {
      LoopEndTriangular(s, eps);
    } else if Negligible(s.M[i][i], eps) && PivotRow(s.M, i, i + 1, eps) == |s.M| {
      var r := ElimFrom(s, i, eps);
      assert r.steps[|r.steps| - 1].kind == ZeroPivot(i);
    } else {
      AdvanceReduced(s, i, eps);
      ElimFromTriangular(Advance(s, i, eps), i + 1, eps);
    }
  }

  /** When the method does not stop early, its last step shows an upper triangular
      matrix U, and the determinant it reports is the product of U's diagonal, which
      holds the pivots, negated once for every row swap it recorded. */
  lemma {:induction false} EliminationTriangular(A: Matrix, eps: real)
    requires IsSquare(A)
    ensures EndsTriangular(Elimination(A, eps), |A|)
  {
    var s := Elim(A, 1.0, [Shown(EliminationStart, A)]);
    SwapCountAppend([], Shown(EliminationStart, A));
    assert [] + [Shown(EliminationStart, A)] == s.steps;
    ElimFromTriangular(s, 0, eps);
  }
}
