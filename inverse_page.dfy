/** The inverse-matrix page: the `MatrixCalculator` class of
    `calculators/matrixCalculator.js` and the identical closure
    `initMatrizInversa` of `services/matriz_inversa/js/script.js`.
    "Calcular pasos previos" reads the matrix, records the determinant steps for its
    size, stops with the error message when the determinant is exactly 0 and
    otherwise adds the cofactor steps and offers the inversion methods; clicking a
    method recomputes the determinant and appends that method's steps.
    The page threshold is `Eps`; every function here also takes the threshold as a
    parameter so that the exact reading (threshold 0) can be stated beside it. */
module InversePage {
  import opened Matrices
  import opened Determinant
  import opened Steps
  import opened ForwardElimination
  import opened SmallFormulas
  import opened Cofactors
  import opened GaussJordanElimination
  import Expansion
  import GaussJordanTheory
  import opened Options

  /** The size dispatch of the precheck: `det2x2` with its step for 2 x 2,
      `det3x3WithCofactorSteps` for 3 x 3 and elimination for any other size. */
  function DetWithSteps(A: Matrix, eps: real): DetInfo
    requires IsSquare(A)
  {
    if |A| == 2 then Det2x2WithSteps(A)
    else if |A| == 3 then Det3x3WithCofactorSteps(A)
    else Elimination(A, eps)
  }

  /** The dispatch reports det(A) for 2 x 2 and 3 x 3 whatever the threshold, and for
      every size under exact pivot tests. */
  lemma {:induction false} DetWithStepsIsDet(A: Matrix, eps: real)
    requires IsSquare(A)
    requires |A| == 2 || |A| == 3 || eps == 0.0
    ensures DetWithSteps(A, eps).det == Det(A)
  {
    if |A| == 2 {
      Det2x2WithStepsIsDet(A);
    } else if |A| == 3 {
      Det3x3IsDet(A);
    } else {
      ExactEliminationDet(A);
    }
  }

  /** The buttons `buildMethods(n)` creates. */
  datatype InverseMethod = GaussJordanMethod | FormulaMethod | AdjointMethod

  /** Gauss-Jordan always; the 2 x 2 formula for n = 2 and the adjugate method for any
      other size. */
  function MethodsFor(n: nat): (ms: seq<InverseMethod>)
    ensures |ms| == 2 && ms[0] == GaussJordanMethod
    ensures FormulaMethod in ms <==> n == 2
    ensures AdjointMethod in ms <==> n != 2
  {
    [GaussJordanMethod] + if n == 2 then [FormulaMethod] else [AdjointMethod]
  }

  /** The precheck `dInfo.det === 0`: an exact comparison, no threshold. */
  predicate PassesPrecheck(A: Matrix, eps: real)
    requires IsSquare(A)
  {
    DetWithSteps(A, eps).det != 0.0
  }

  /** The cards "Calcular pasos previos" leaves on the page: the determinant steps, and
      the cofactor steps when the precheck passes. */
  function PreCalcCards(A: Matrix, eps: real): seq<Step>
    requires IsSquare(A)
  {
    DetWithSteps(A, eps).steps + if PassesPrecheck(A, eps) then CofactorStepsOf(A, eps).steps else []
  }

  /** The determinant the click handler recomputes "por seguridad": `det2x2` for
      size 2, elimination otherwise (also for size 3, unlike the precheck). */
  function ClickDet(A: Matrix, eps: real): real
    requires IsSquare(A)
  {
    if |A| == 2 then Det2x2(A) else Elimination(A, eps).det
  }

  /** How a click on a method ends. */
  datatype Resolution =
    | SingularError           // `d === 0`: the error message, nothing appended
    | NotApplicable           // the formula on a size other than 2
    | Solved(steps: seq<Step>)
    | Thrown(column: nat)     // `gaussJordanSteps` throws 'Pivote 0 sin alternativa'

  /** The click handler for method m on the matrix read by the precheck. */
  function ResolutionOf(A: Matrix, m: InverseMethod, eps: real): Resolution
    requires IsSquare(A)
  {
    var d := ClickDet(A, eps);
    if d == 0.0 then SingularError
    else if m == FormulaMethod && |A| != 2 then NotApplicable
    else
      match m
      case FormulaMethod => Solved(Formula2x2Steps(A, d))
      case AdjointMethod => Solved(AdjugateMethodOf(A, d, eps))
      case GaussJordanMethod =>
        match GaussJordan(A, eps)
        case NoPivot(k) => Thrown(k)
        case Inverted(_, steps) => Solved(steps)
  }

  /** The cards a click appends: the "Resolución" separator once the determinant is
      non-zero, then the "no aplica" card or the method's steps; a throw leaves only
      the separator. */
  function ResolutionCards(r: Resolution): seq<Step>
  {
    match r
    case SingularError => []
    case NotApplicable => [Step(ResolutionHeader, None), Step(FormulaNotApplicable, None)]
    case Solved(steps) => [Step(ResolutionHeader, None)] + steps
    case Thrown(_) => [Step(ResolutionHeader, None)]
  }

  /** The recomputed determinant is det(A) for 2 x 2 whatever the threshold, and for
      every size under exact pivot tests. */
  lemma {:induction false} ClickDetIsDet(A: Matrix, eps: real)
    requires IsSquare(A)
    requires |A| == 2 || eps == 0.0
    ensures ClickDet(A, eps) == Det(A)
  {
    if |A| == 2 {
      Det2x2IsDet(A);
    } else {
      ExactEliminationDet(A);
    }
  }

  /** Under exact pivot tests the precheck and the click agree with each other and
      with det(A): the method section is offered exactly for invertible matrices, and
      a click on it never reports a singular matrix. */
  lemma {:induction false} ExactChecksAgree(A: Matrix)
    requires IsSquare(A)
    ensures PassesPrecheck(A, 0.0) <==> Det(A) != 0.0
    ensures ClickDet(A, 0.0) != 0.0 <==> Det(A) != 0.0
  {
    DetWithStepsIsDet(A, 0.0);
    ClickDetIsDet(A, 0.0);
  }

  /** Under exact pivot tests every method the page offers for A reports a singular
      matrix exactly when det(A) = 0, and otherwise never throws and ends with a step
      showing adj(A) / det(A), a two-sided inverse of A. So the three methods agree. */
  lemma {:induction false} ExactResolution(A: Matrix, m: InverseMethod)
    requires IsSquare(A) && m in MethodsFor(|A|)
    ensures ResolutionOf(A, m, 0.0).SingularError? <==> Det(A) == 0.0
    ensures Det(A) != 0.0 ==>
      var r := ResolutionOf(A, m, 0.0);
      var inv := DivideAll(Expansion.Adjugate(A), Det(A));
      && r.Solved? && |r.steps| > 0 && r.steps[|r.steps| - 1].matrix == Some(inv)
      && Mul(A, inv) == Identity(|A|) && Mul(inv, A) == Identity(|A|)
  {
    ClickDetIsDet(A, 0.0);
    var d := Det(A);
    if d != 0.0 {
      Expansion.AdjugateInverse(A, d);
      match m
      case FormulaMethod =>
        Formula2x2IsAdjugate(A);
        Formula2x2Inverse(A, d);
      case AdjointMethod =>
        AdjugateMethodInverse(A, d);
      case GaussJordanMethod =>
        GaussJordanTheory.ExactGaussJordan(A);
        var G := Augment(A);
        InverseIsLastStep(GJ(G, [Shown(Augmented, G)]), 0, 0.0);
    }
  }

  /** Finding, as written: [[1e-13, 0], [0, 1]] is invertible and passes the precheck,
      Gauss-Jordan is offered for it, and clicking it throws at column 0 because the
      pivot is below the threshold `Eps` and there is no row to swap in. */
  lemma {:induction false} GaussJordanThrowsOnInvertible()
    ensures var A: Matrix := [[0.0000000000001, 0.0], [0.0, 1.0]];
      && IsSquare(A) && Det(A) == 0.0000000000001
      && PassesPrecheck(A, Eps) && GaussJordanMethod in MethodsFor(|A|)
      && ResolutionOf(A, GaussJordanMethod, Eps) == Thrown(0)
  {
    GaussJordanTheory.ThresholdRejectsInvertible();
  }

  /** Finding, as written: diag(1e-13, 1, 1) passes the precheck, whose 3 x 3 formula
      has no threshold, but the click recomputes the determinant by elimination, which
      finds no pivot above `Eps` in column 0 and returns 0; every offered method then
      reports a singular matrix. */
  lemma {:induction false} ClickContradictsPrecheck()
    ensures var A: Matrix := [[0.0000000000001, 0.0, 0.0], [0.0, 1.0, 0.0], [0.0, 0.0, 1.0]];
      && IsSquare(A) && Det(A) == 0.0000000000001
      && PassesPrecheck(A, Eps)
      && forall m :: ResolutionOf(A, m, Eps) == SingularError
  {
    var A: Matrix := [[0.0000000000001, 0.0, 0.0], [0.0, 1.0, 0.0], [0.0, 0.0, 1.0]];
    SmallFirstPivotFormula(A);
    SmallFirstPivotEliminated(A);
  }

  lemma {:induction false} SmallFirstPivotFormula(A: Matrix)
    requires A == [[0.0000000000001, 0.0, 0.0], [0.0, 1.0, 0.0], [0.0, 0.0, 1.0]]
    ensures IsSquare(A) && DetWithSteps(A, Eps).det == 0.0000000000001 && Det(A) == 0.0000000000001
  {
    Det3x3IsDet(A);
    var m := Minor(A, 0, 0);
    assert m[0][0] == 1.0 && m[1][1] == 1.0 && m[0][1] == 0.0 && m[1][0] == 0.0;
  }

  lemma {:induction false} SmallFirstPivotEliminated(A: Matrix)
    requires A == [[0.0000000000001, 0.0, 0.0], [0.0, 1.0, 0.0], [0.0, 0.0, 1.0]]
    ensures IsSquare(A) && Elimination(A, Eps).det == 0.0
  {
    assert Negligible(A[0][0], Eps);
    assert PivotRow(A, 0, 3, Eps) == 3;
    assert PivotRow(A, 0, 2, Eps) == 3;
    assert PivotRow(A, 0, 1, Eps) == 3;
  }

  /** The page's state. `methods` are the method buttons, empty while the method
      section is hidden; `stream` is the list of step cards on the page. */
  class MatrixCalculator {
    var size: nat
    var matrix: Matrix
    var prevSteps: seq<Step>
    var errorShown: bool
    var methods: seq<InverseMethod>
    var stream: seq<Step>

    /** Method buttons are only shown for the matrix of the current size that the
        last precheck read. */
    predicate Valid()
      reads this
    {
      methods != [] ==> IsSquare(matrix) && |matrix| == size && methods == MethodsFor(size)
    }

    /** Size 2, no matrix, no steps. */
    constructor ()
      ensures Valid()
      ensures size == 2 && matrix == [] && prevSteps == []
      ensures !errorShown && methods == [] && stream == []
    {
      size := 2;
      matrix := [];
      prevSteps := [];
      errorShown := false;
      methods := [];
      stream := [];
    }

    /** A size button: hides the error and the method section and clears the cards;
        the matrix and the previous steps stay. */
    method SelectSize(n: nat)
      modifies this
      ensures Valid()
      ensures size == n && !errorShown && methods == [] && stream == []
      ensures matrix == old(matrix) && prevSteps == old(prevSteps)
    {
      size := n;
      errorShown := false;
      methods := [];
      stream := [];
    }

    /** "Calcular pasos previos" on the numbers read from the grid. */
    method PreCalc(input: Matrix)
      requires IsSquare(input) && |input| == size
      modifies this
      ensures Valid()
      ensures size == old(size) && matrix == input
      ensures prevSteps == DetWithSteps(input, Eps).steps
      ensures errorShown == !PassesPrecheck(input, Eps)
      ensures methods == if errorShown then [] else MethodsFor(size)
      ensures stream == PreCalcCards(input, Eps)
    {
      matrix := input;
      var dInfo: DetInfo;
      if size == 2 {
        dInfo := Det2x2WithSteps(input);
      } else if size == 3 {
        dInfo := Det3x3WithCofactorSteps(input);
      } else {
        var det, steps := DetEliminationWithSteps(input, Eps);
        dInfo := DetInfo(det, steps);
      }
      prevSteps := dInfo.steps;
      stream := prevSteps;
      if dInfo.det == 0.0 {
        errorShown := true;
        methods := [];
        return;
      }
      errorShown := false;
      var cof := CofactorSteps(input, Eps);
      stream := stream + cof.steps;
      methods := MethodsFor(size);
    }

    /** A click on the button of method m. */
    method Resolve(m: InverseMethod) returns (r: Resolution)
      requires Valid() && methods != []
      modifies this
      ensures size == old(size) && matrix == old(matrix) && prevSteps == old(prevSteps)
      ensures methods == old(methods) && Valid()
      ensures r == ResolutionOf(matrix, m, Eps)
      ensures errorShown == r.SingularError?
      ensures stream == old(stream) + ResolutionCards(r)
    {
      var d: real;
      if size == 2 {
        d := Det2x2(matrix);
      } else {
        var det, _ := DetEliminationWithSteps(matrix, Eps);
        d := det;
      }
      if d == 0.0 {
        errorShown := true;
        return SingularError;
      }
      errorShown := false;
      stream := stream + [Step(ResolutionHeader, None)];
      if m == FormulaMethod && size != 2 {
        stream := stream + [Step(FormulaNotApplicable, None)];
        return NotApplicable;
      }
      var extra: seq<Step>;
      match m {
        case FormulaMethod =>
          extra := Formula2x2Steps(matrix, d);
        case AdjointMethod =>
          extra := AdjugateMethod(matrix, d, Eps);
        case GaussJordanMethod =>
          var g := GaussJordanSteps(matrix, Eps);
          if g.NoPivot? {
            return Thrown(g.column);
          }
          extra := g.steps;
      }
      stream := stream + extra;
      r := Solved(extra);
    }
  }
}
