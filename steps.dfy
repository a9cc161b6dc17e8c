/** The explanation steps every strategy returns. A step of the source is a record
    `{title, desc, math, matrix}`; the strings are display text and are represented
    here only by what they are built from (which rows, which pivot, which value),
    while `matrix` is the snapshot recorded with the step, if any. Row and column
    indices are 0-based; the titles show them plus one. */
module Steps {
  import opened Matrices
  import opened Options

  datatype StepKind =
      // determinant by forward elimination
    | EliminationStart
    | ZeroPivot(column: nat)
    | RowSwap(row: nat, with: nat)
    | Pivot(index: nat, p: real)
    | EliminateRow(row: nat, pivotRow: nat, factor: real)
    | PivotProduct(det: real)
      // 3 x 3 first-row formula
    | Formula3x3
    | MinorAndCofactor(column: nat, cofactor: real)
    | FinalSum(det: real)
      // 2 x 2 formula for the determinant
    | Det2x2Formula(det: real)
      // cofactor expansion along a row
    | ExpansionHeader(row: nat)
    | CofactorOf(row: nat, column: nat, cofactor: real)
    | TermOf(row: nat, column: nat, term: real)
      // cofactor matrix and adjugate
    | CofactorTable
    | AdjugateTable
      // inverse
    | Formula2x2
    | Inverse
    | Augmented
    | Normalize(row: nat, pivot: real)
    | ClearRow(row: nat, pivotRow: nat, factor: real)
    | ReadInverse
      // cards the pages add between strategies
    | ResolutionHeader
    | FormulaNotApplicable
    | AlternativeHeader

  datatype Step = Step(kind: StepKind, matrix: Option<Matrix>)

  /** What every determinant strategy returns: `{det, steps}`. */
  datatype DetInfo = DetInfo(det: real, steps: seq<Step>)

  /** A step showing the matrix M. */
  function Shown(kind: StepKind, M: Matrix): Step
  {
    Step(kind, Some(M))
  }
}
