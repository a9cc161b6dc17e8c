/** The determinant page, `initDeterminantes` of
    `services/determinantes/js/script.js`. "Calcular Determinante" reads the matrix,
    records the determinant steps of the same size dispatch as the inverse pages and
    offers the alternative methods: cofactor expansion along the first row always,
    elimination from size 3 on. Clicking one appends the "Método Alternativo"
    separator and that method's steps. The page has no singularity check. */
module DeterminantPage {
  import opened Matrices
  import opened Determinant
  import opened Steps
  import opened ForwardElimination
  import opened SmallFormulas
  import opened CofactorExpansion
  import opened InversePage
  import opened Options

  /** The buttons the page's `buildMethods(n)` creates. */
  datatype DetMethod = CofactorMethod | EliminationMethod

  /** Cofactor expansion always, elimination only for n >= 3. */
  function DetMethodsFor(n: nat): (ms: seq<DetMethod>)
    ensures 1 <= |ms| <= 2 && ms[0] == CofactorMethod
    ensures EliminationMethod in ms <==> n >= 3
  {
    [CofactorMethod] + if n >= 3 then [EliminationMethod] else []
  }

  /** The result of an alternative method: `cofactorExpansionSteps(A, 0)` or
      `detEliminationWithSteps(A)`. */
  function AlternativeOf(A: Matrix, m: DetMethod, eps: real): DetInfo
    requires IsSquare(A) && |A| >= 1
  {
    match m
    case CofactorMethod => CofactorExpansionOf(A, 0, eps)
    case EliminationMethod => Elimination(A, eps)
  }

  /** Under exact pivot tests the first answer and both alternatives are det(A), so
      the page shows one value three ways. */
  lemma {:induction false} ExactStrategiesAgree(A: Matrix, m: DetMethod)
    requires IsSquare(A) && |A| >= 1
    ensures DetWithSteps(A, 0.0).det == Det(A)
    ensures AlternativeOf(A, m, 0.0).det == Det(A)
  {
    DetWithStepsIsDet(A, 0.0);
    match m
    case CofactorMethod => ExactCofactorExpansion(A, 0);
    case EliminationMethod => ExactEliminationDet(A);
  }

  /** For a 3 x 3 matrix the first answer (the closed formula) and the cofactor
      alternative (with 2 x 2 minors) involve no pivot test, so both are det(A)
      whatever the threshold. */
  lemma {:induction false} ThreeByThreeAgree(A: Matrix, eps: real)
    requires IsSquare(A) && |A| == 3
    ensures DetWithSteps(A, eps).det == Det(A)
    ensures AlternativeOf(A, CofactorMethod, eps).det == Det(A)
  {
    DetWithStepsIsDet(A, eps);
    ExpansionIgnoresThreshold(A, 0, eps);
  }

  /** The page's state. `methods` are the alternative-method buttons, empty while the
      method section is hidden; `stream` is the list of step cards. */
  class DeterminantCalculator {
    var size: nat
    var A: Matrix
    var detSteps: seq<Step>
    var methods: seq<DetMethod>
    var stream: seq<Step>

    /** Sizes start at 1, and buttons are only shown for the matrix of the current
        size that was last read. */
    predicate Valid()
      reads this
    {
      1 <= size && (methods != [] ==> IsSquare(A) && |A| == size && methods == DetMethodsFor(size))
    }

    /** Size 2, no matrix, no steps. */
    constructor ()
      ensures Valid()
      ensures size == 2 && A == [] && detSteps == [] && methods == [] && stream == []
    {
      size := 2;
      A := [];
      detSteps := [];
      methods := [];
      stream := [];
    }

    /** A size button: hides the method section and clears the cards. */
    method SelectSize(n: nat)
      requires 1 <= n
      modifies this
      ensures Valid()
      ensures size == n && methods == [] && stream == []
      ensures A == old(A) && detSteps == old(detSteps)
    {
      size := n;
      methods := [];
      stream := [];
    }

    /** "Calcular Determinante" on the numbers read from the grid; returns the
        determinant the steps end with. */
    method Calculate(input: Matrix) returns (det: real)
      requires Valid() && IsSquare(input) && |input| == size
      modifies this
      ensures Valid() && size == old(size) && A == input
      ensures det == DetWithSteps(input, Eps).det
      ensures detSteps == DetWithSteps(input, Eps).steps && stream == detSteps
      ensures methods == DetMethodsFor(size)
    {
      A := input;
      var dInfo: DetInfo;
      if size == 2 {
        dInfo := Det2x2WithSteps(input);
      } else if size == 3 {
        dInfo := Det3x3WithCofactorSteps(input);
      } else {
        var d, steps := DetEliminationWithSteps(input, Eps);
        dInfo := DetInfo(d, steps);
      }
      det := dInfo.det;
      detSteps := dInfo.steps;
      stream := detSteps;
      methods := DetMethodsFor(size);
    }

    /** A click on an alternative method; returns the determinant that method ends
        with. */
    method Alternative(m: DetMethod) returns (det: real)
      requires Valid() && methods != []
      modifies this
      ensures Valid() && size == old(size) && A == old(A) && detSteps == old(detSteps)
      ensures methods == old(methods)
      ensures det == AlternativeOf(A, m, Eps).det
      ensures stream == old(stream) + [Step(AlternativeHeader, None)] + AlternativeOf(A, m, Eps).steps
    {
      var extra: seq<Step>;
      match m {
        case CofactorMethod =>
          var r := CofactorExpansionSteps(A, 0, Eps);
          det, extra := r.det, r.steps;
        case EliminationMethod =>
          det, extra := DetEliminationWithSteps(A, Eps);
      }
      stream := stream + [Step(AlternativeHeader, None)] + extra;
    }
  }
}
