# Step-by-step determinant, inverse and ODE pages — a Dafny model

The web calculator shows its work as a stream of step cards. It does this for
determinants, matrix inverses and two ordinary differential equation pages. Each step
card holds a title, a description, a formula and, optionally, a snapshot of the
working matrix.

This project models the algebra engine behind those cards and proves what the
numbers on the cards mean. It also models the validators and click handlers of the
first- and second-order ODE pages.

## How the engine is organised

The same engine is written three times:

- `calculators/matrixCalculator.js` is a class, `MatrixCalculator`.
- `services/matriz_inversa/js/script.js` is a closure, `initMatrizInversa`.
- `services/determinantes/js/script.js` is a closure, `initDeterminantes`.

The model writes the algebra once:

- `Matrices`, `Determinant`, `Expansion` and `Sums` hold the mathematics: minors,
  the determinant, Laplace expansion and the adjugate identity.
- `ForwardElimination`, `GaussJordanElimination`, `SmallFormulas`, `Cofactors` and
  `CofactorExpansion` hold the step-recording routines.
- `Fractions` and `Format` hold the number formatter.

Each routine comes in two forms:

- A method in the source's imperative form. It works on an `array` of rows, with its
  loops and their invariants.
- A function of the inputs that says the same thing.

Each method's contract equals the function, and the lemmas say what the function
computes. Every routine takes the pivot threshold `eps` as a parameter.

- The pages use `Eps` = 1e-12.
- `eps = 0` is the exact-arithmetic reading of the same code. Under it, every
  strategy returns det(A), and every inversion method returns adj(A)/det(A).
- Under `Eps`, the model also shows where the pages and the exact reading part.

Module `InversePage` models the two inverse pages. Module `DeterminantPage` models
the determinant page. Their classes hold the page state: the size, the matrix read,
the previous steps, the method buttons and the card stream.

### Where the three copies differ

- **The two inverse pages.** `matrixCalculator.js` and `matriz_inversa/js/script.js`
  have the same helpers (`toFraction`, `gcd`, `simplify`, `fmt`, `minor`,
  `det2x2`), the same strategies and the same two click handlers, line for line.
  One is written with `this.`, the other with closure variables. Both are modelled by
  `InversePage`.
- **The determinant page's extra routines.** It has the same helpers,
  `detEliminationWithSteps` and `det3x3WithCofactorSteps`. It adds
  `det2x2WithSteps` and `cofactorExpansionSteps`.
- **The determinant page's cofactors.** Its `cofactorExpansionSteps` computes a
  3 × 3 minor's determinant with the closed formula. The inverse pages'
  `cofactorSteps` sends every minor larger than 2 × 2 through elimination.
- **What the determinant page leaves out.** It has no inverse methods and no
  singularity check.
- **The determinant page's buttons.** It offers cofactor expansion always and
  elimination from size 3 on. The inverse pages offer Gauss-Jordan always, plus the
  2 × 2 formula for size 2 or the adjugate method for any other size.
- **Recomputing the determinant.** The inverse pages recompute the determinant when
  a method is clicked: `det2x2` for size 2, elimination otherwise. This differs from
  the precheck's 3 × 3 formula, and it is the source of finding 2.
- **Step text.** Only display text differs between the copies, which the model
  does not represent (see `Steps`).
- **`toFraction`'s default.** Its default `maxDen` is 1000, but `fmt`, its only
  caller, passes 2000.

## Model

| member | source | states |
|---|---|---|
| Matrices.Minor | calculators/matrixCalculator.js:65-67 | `minor(M, i, j)` is square of size n - 1, and its entry (r, c) is M's entry at the r-th row other than i and the c-th column other than j |
| Matrices.InverseUnique | calculators/matrixCalculator.js:196-212 | a left inverse and a right inverse of A are equal, so all inversion methods must show the same matrix |
| Determinant.DetOf2x2 | calculators/matrixCalculator.js:69-71 | the determinant of a 2 x 2 matrix is ad - bc |
| Determinant.SwapRows | calculators/matrixCalculator.js:96-103 | swapping two distinct rows negates the determinant, which justifies `det *= -1` on a swap |
| Determinant.AddRowKeepsDet | calculators/matrixCalculator.js:113-121 | adding a multiple of one row to another leaves the determinant unchanged, which justifies the elimination step |
| Determinant.ScaleRowDet | calculators/matrixCalculator.js:237-242 | scaling a row by c scales the determinant by c, as the Gauss-Jordan normalisation does |
| Expansion.Laplace | services/determinantes/js/script.js:152-208 | the expansion along any row i equals the determinant, which justifies `cofactorExpansionSteps(A, row)` for every row |
| Expansion.AdjugateIdentity | calculators/matrixCalculator.js:174-194 | A * adj(A) = det(A) * I, where adj(A) is the transposed cofactor matrix |
| Expansion.AdjugateInverse | calculators/matrixCalculator.js:205-212 | for d = det(A) non-zero, adj(A)/d is a right inverse of A |
| ForwardElimination.PivotRow | calculators/matrixCalculator.js:85-86 | the pivot search returns the first row from `from` on whose entry is not negligible, or n when there is none |
| ForwardElimination.FindPivotRow | calculators/matrixCalculator.js:85-86 | the `while (sw < n && abs < 1e-12) sw++` loop returns `PivotRow` |
| ForwardElimination.SubtractRow | calculators/matrixCalculator.js:115 | the inner loop replaces row r by the eliminated row and changes no other row |
| ForwardElimination.EliminateColumn | calculators/matrixCalculator.js:113-121 | the loop over the rows below the pivot gives the matrix and steps of `EliminateBelow` |
| ForwardElimination.SwapIn | calculators/matrixCalculator.js:96-103 | the swap exchanges rows i and sw, negates det and records one step |
| ForwardElimination.PivotAndEliminate | calculators/matrixCalculator.js:105-121 | `det *= p`, the pivot step and the elimination below it |
| ForwardElimination.EliminationRound | calculators/matrixCalculator.js:84-121 | one outer round: the early exit exactly when the diagonal entry and every entry below it are negligible, with nothing changed; otherwise swap, pivot and elimination |
| ForwardElimination.DetEliminationWithSteps | calculators/matrixCalculator.js:73-130 | the method on a copy of A returns the determinant and steps of `Elimination(A, eps)` |
| ForwardElimination.EliminationDet | calculators/matrixCalculator.js:73-130 | the returned determinant is 0 on the early exit, and otherwise det(A) for any threshold |
| ForwardElimination.EliminateBelowSwaps | calculators/matrixCalculator.js:113-121 | eliminating the rows below a pivot records no row swap |
| ForwardElimination.SwapPivotReduced | calculators/matrixCalculator.js:96-103 | the swap keeps the reduced columns zero below the diagonal and keeps det equal to the signed product of the pivots, counting one more sign change |
| ForwardElimination.PivotStepReduced | calculators/matrixCalculator.js:105-121 | `det *= p` and the elimination below the pivot reduce one more column and multiply det by the new diagonal entry |
| ForwardElimination.ElimFromTriangular | calculators/matrixCalculator.js:84-128 | from any reduced state the loop, unless it exits early, ends on an upper triangular matrix whose signed diagonal product is the returned det |
| ForwardElimination.EliminationTriangular | calculators/matrixCalculator.js:73-130 | unless it exits early, the last step (the product of the pivots) shows an upper triangular U and det is the product of U's diagonal, the pivots, negated once per recorded row swap; with `EliminationDet` this product is det(A) |
| ForwardElimination.Elimination1x1 | services/determinantes/js/script.js:72-110 | on a 1 x 1 matrix the elimination returns its entry, or 0 when the entry is below the threshold |
| ForwardElimination.ExactEliminationDet | services/matriz_inversa/js/script.js:45-83 | with exact pivot tests the elimination returns det(A) |
| SmallFormulas.Det2x2IsDet | services/matriz_inversa/js/script.js:43 | `det2x2` is the determinant of a 2 x 2 matrix |
| SmallFormulas.Det2x2WithStepsIsDet | services/determinantes/js/script.js:141-150 | `det2x2WithSteps` returns det(A) and one step showing A |
| SmallFormulas.Det3x3IsDet | calculators/matrixCalculator.js:132-172 | `det3x3WithCofactorSteps` returns det(A); its five steps show the formula, the three minors with cofactors C_1j = (-1)^(1+j) det(M_1j), and the final sum |
| SmallFormulas.Formula2x2IsAdjugate | calculators/matrixCalculator.js:197 | the matrix `[[d, -b], [-c, a]]` is the adjugate |
| SmallFormulas.Formula2x2Inverse | calculators/matrixCalculator.js:196-203 | with d = det(A) non-zero, the matrix `metodoFormula2x2` shows is a two-sided inverse of A |
| SmallFormulas.Formula2x2Example | services/matriz_inversa/js/script.js:136-143 | `[[1, 2], [3, 4]]` has determinant -2, and the formula shows `[[-2, 1], [3/2, -1/2]]` |
| Cofactors.CofactorTableOf | calculators/matrixCalculator.js:176-181 | entry (i, j) of the table is `s * dM` with the source's sign and sub-determinant |
| Cofactors.MinorDeterminant | calculators/matrixCalculator.js:179 | `det2x2` for a 2-row minor and elimination otherwise |
| Cofactors.FillRow | calculators/matrixCalculator.js:177-188 | the inner loop fills row i of C and records one step per entry |
| Cofactors.CofactorSteps | calculators/matrixCalculator.js:174-194 | `cofactorSteps` returns C, its transpose Adj and the steps of `CofactorStepsOf` |
| Cofactors.CofactorStepsShape | services/matriz_inversa/js/script.js:114-134 | the n*n entry steps, in row order, each showing its minor and its value; then C, then adj = C^T |
| Cofactors.ExactMinorDet | calculators/matrixCalculator.js:179 | with exact pivot tests each sub-determinant is det of the minor |
| Cofactors.ExactCofactors | calculators/matrixCalculator.js:174-194 | with exact pivot tests C is the cofactor matrix and Adj the adjugate |
| Cofactors.AdjugateMethod | calculators/matrixCalculator.js:205-212 | `metodoAdjunta` returns the adjugate step and the step showing adj/d |
| Cofactors.AdjugateMethodInverse | services/matriz_inversa/js/script.js:145-152 | with exact pivot tests and d = det(A) non-zero, the matrix shown is a two-sided inverse of A |
| CofactorExpansion.ExpansionCofactors | services/determinantes/js/script.js:164-177 | the cofactor of column j is the sign times the minor's determinant: `det2x2` for 2 x 2, `det3x3WithCofactorSteps` for 3 x 3, elimination otherwise |
| CofactorExpansion.ExpansionMinorDeterminant | services/determinantes/js/script.js:168-175 | the three-way dispatch on the minor's size |
| CofactorExpansion.CofactorOfColumn | services/determinantes/js/script.js:165-177 | the loop body's cofactor |
| CofactorExpansion.CofactorExpansionSteps | services/determinantes/js/script.js:152-208 | the method returns the determinant and steps of `CofactorExpansionOf` |
| CofactorExpansion.ExpansionStepsShape | services/determinantes/js/script.js:157-205 | the 2n + 2 steps: the header on A; for each column its cofactor (showing the minor) and its term (showing A); the final sum |
| CofactorExpansion.ExactCofactorExpansion | services/determinantes/js/script.js:152-208 | with exact pivot tests the expansion along any row is det(A) |
| CofactorExpansion.ExpansionIgnoresThreshold | services/determinantes/js/script.js:168-175 | for 3 x 3 and 4 x 4 matrices every minor goes through a closed formula, so the expansion is det(A) for any threshold |
| CofactorExpansion.ExpansionDropsSmallMinor | services/determinantes/js/script.js:168-175 | `[[1e12, 0], [0, 1e-13]]` has determinant 1/10, but its expansion gives 0 |
| GaussJordanElimination.Augment | calculators/matrixCalculator.js:216 | each row of [A \| I] is the row of A followed by the row of the identity |
| GaussJordanElimination.ClearColumn | calculators/matrixCalculator.js:243-253 | the loop over the rows skips the pivot row and negligible entries, clears the rest and records a step for each cleared row |
| GaussJordanElimination.PivotSearch | calculators/matrixCalculator.js:224-236 | reports the throw exactly when the pivot and everything below it are negligible, and otherwise makes the swap |
| GaussJordanElimination.GaussJordanSteps | calculators/matrixCalculator.js:214-258 | the method returns `GaussJordan(A, eps)`: the steps, or `NoPivot(k)` where the source throws |
| GaussJordanElimination.InverseIsLastStep | services/matriz_inversa/js/script.js:177-178 | when no throw happens, the last step shows the matrix returned |
| GaussJordanTheory.AugmentEquivalent | calculators/matrixCalculator.js:216 | [A \| I] satisfies R * A = L, and L is singular exactly when A is |
| GaussJordanTheory.ExactGaussJordan | calculators/matrixCalculator.js:214-258 | with exact pivot tests the method throws exactly when det(A) = 0; otherwise it returns a two-sided inverse equal to adj(A)/det(A) |
| GaussJordanTheory.ThresholdRejectsInvertible | services/matriz_inversa/js/script.js:160-162 | with the 1e-12 threshold, Gauss-Jordan throws on `[[1e-13, 0], [0, 1]]`, which has det 1e-13 |
| Fractions.GcdOfIsGcd | calculators/matrixCalculator.js:42-47 | `gcd` is at least 1 and divides both arguments, and every common divisor divides it |
| Fractions.Gcd | calculators/matrixCalculator.js:42-47 | the remainder loop returns the greatest common divisor of the magnitudes, or 1 for (0, 0) |
| Fractions.ReducedIsLowest | calculators/matrixCalculator.js:49-52 | `simplify` keeps the ratio and leaves a coprime pair |
| Fractions.Simplify | services/matriz_inversa/js/script.js:29 | both parts are divided by their gcd, and the result is coprime unless the input is (0, 0) |
| Fractions.Expand | calculators/matrixCalculator.js:29-37 | the continued-fraction loop stops with a denominator between the current one and `maxDen`, and a non-negative numerator |
| Fractions.ToFraction | calculators/matrixCalculator.js:24-40 | the method returns `ToFractionOf` |
| Fractions.ToFractionBounds | calculators/matrixCalculator.js:24-40 | the denominator lies in 1..maxDen, the numerator carries the sign, 0 becomes 0/1, and the pair is in lowest terms |
| Fractions.ToFractionExact | services/determinantes/js/script.js:12-27 | a value p/q with q <= maxDen and eps <= 1/q is returned as p/q in lowest terms |
| Format.FmtReadsBack | calculators/matrixCalculator.js:54-58 | `fmt` prints "n" when the denominator is 1 and "n/d" otherwise, with d in 1..2000; each part reads back as the numerator and the denominator |
| Format.FmtExact | services/matriz_inversa/js/script.js:31-35 | a value p/q with q <= 2000 is printed as p/q in lowest terms |
| Format.FmtExamples | services/determinantes/js/script.js:31-35 | `fmt(1.5)` = "3/2", `fmt(-0.5)` = "-1/2", `fmt(0)` = "0", `fmt(2)` = "2" |
| Text.IntToStringRoundTrip | calculators/matrixCalculator.js:57 | the `${n}` text of an integer parses back to n |
| Text.TrimPadded | services/edo/js/edo1.js:107-108 | `trim` of a text padded with white space, which itself neither starts nor ends with white space, is that text |
| Text.SplitJoin | services/edo/js/edo1.js:105-108 | joining the pieces of `split('=')` with '=' gives back the text |
| Text.SplitAtFirst | services/edo/js/edo1.js:107-108 | `parts[0]` is the text before the first '=', and `parts.slice(1).join('=')` is the text after it |
| InversePage.DetWithStepsIsDet | calculators/matrixCalculator.js:409-424 | the precheck's size dispatch gives det(A) for 2 x 2 and 3 x 3 with any threshold, and for every size with exact pivot tests |
| InversePage.MethodsFor | calculators/matrixCalculator.js:333-357 | Gauss-Jordan first; the formula exactly for n = 2; the adjugate exactly for n != 2 |
| InversePage.ClickDetIsDet | services/matriz_inversa/js/script.js:372 | the determinant recomputed on a click is det(A) for 2 x 2 with any threshold, and for every size with exact pivot tests |
| InversePage.ExactChecksAgree | calculators/matrixCalculator.js:433-461 | with exact pivot tests the precheck passes, and the click finds a non-zero determinant, exactly when det(A) != 0 |
| InversePage.ExactResolution | calculators/matrixCalculator.js:451-484 | with exact pivot tests every offered method reports a singular matrix exactly when det(A) = 0; otherwise it never throws and its last step shows adj(A)/det(A), a two-sided inverse |
| InversePage.GaussJordanThrowsOnInvertible | services/matriz_inversa/js/script.js:345-388 | `[[1e-13, 0], [0, 1]]` passes the precheck and is offered Gauss-Jordan, which throws at column 0 |
| InversePage.ClickContradictsPrecheck | calculators/matrixCalculator.js:420-461 | diag(1e-13, 1, 1) passes the precheck, but every method click reports a singular matrix |
| InversePage.MatrixCalculator.constructor | calculators/matrixCalculator.js:7-17 | size 2, no matrix, no steps, no buttons |
| InversePage.MatrixCalculator.SelectSize | calculators/matrixCalculator.js:375-385 | the new size; the error and the method section hidden; the cards cleared; the matrix kept |
| InversePage.MatrixCalculator.PreCalc | calculators/matrixCalculator.js:392-450 | records the size dispatch's steps; shows the error exactly when the determinant is exactly 0; otherwise appends the cofactor steps and shows `MethodsFor(size)` |
| InversePage.MatrixCalculator.Resolve | services/matriz_inversa/js/script.js:363-395 | a click returns `ResolutionOf`: singular error with nothing appended; otherwise the separator and then the "no aplica" card, the method's steps, or nothing when Gauss-Jordan throws |
| DeterminantPage.DetMethodsFor | services/determinantes/js/script.js:322-339 | cofactor expansion first; elimination exactly for n >= 3 |
| DeterminantPage.ExactStrategiesAgree | services/determinantes/js/script.js:381-420 | with exact pivot tests the first answer and both alternatives are det(A) |
| DeterminantPage.ThreeByThreeAgree | services/determinantes/js/script.js:386-417 | for 3 x 3 the first answer and the cofactor alternative are det(A) with any threshold |
| DeterminantPage.DeterminantCalculator.constructor | services/determinantes/js/script.js:285-296 | size 2, no matrix, no steps, no buttons |
| DeterminantPage.DeterminantCalculator.SelectSize | services/determinantes/js/script.js:347-357 | the new size; the method section hidden; the cards cleared |
| DeterminantPage.DeterminantCalculator.Calculate | services/determinantes/js/script.js:370-400 | records the size dispatch's steps as the cards and shows `DetMethodsFor(size)` |
| DeterminantPage.DeterminantCalculator.Alternative | services/determinantes/js/script.js:402-425 | appends the "Método Alternativo" separator and the chosen method's steps, and returns its determinant |
| Edo1.PatternsLowered | services/edo/js/edo1.js:76-78 | the eight forbidden patterns, lowered |
| Edo1.FirstDangerous | services/edo/js/edo1.js:77-81 | the first pattern in list order that occurs in the lowered text, or none when no pattern occurs |
| Edo1.SanitizeAccepts | services/edo/js/edo1.js:61-84 | an accepted expression comes back unchanged; acceptance holds exactly when the text is non-empty, at most 200 UTF-16 units, inside the character class and free of every pattern; `null` exactly for the empty text |
| Edo1.OnlyApplyAndCall | services/edo/js/edo1.js:70-81 | once the character test passes, only "apply" and "call" can still be rejected, because the other six patterns use letters outside the class |
| Edo1.SanitizeRejectsChar | services/edo/js/edo1.js:65-73 | a character outside the class makes the sanitizer throw, with the length error taking precedence |
| Edo1.Utf16AtMostTwice | services/edo/js/edo1.js:65 | `length` counts between one and two units per character |
| Edo1.LengthLimitInCharacters | services/edo/js/edo1.js:65-67 | the 200-unit limit never rejects a text of at most 100 characters as too long and always rejects one of more than 200 characters |
| Edo1.ValidateEdo1AtFirstEquals | services/edo/js/edo1.js:103-116 | the validator accepts exactly when there is an '='; the trimmed left side names `dy` or `y'`; and the trimmed right side is non-empty and inside the validator's class |
| Edo1.ValidateWithEquals | services/edo/js/edo1.js:105-115 | with an '=' present, the validator reduces to its tests on the two sides |
| Edo1.DerivativeTest | services/edo/js/edo1.js:109 | the three `includes` tests reduce to `dy` or `y'` |
| Edo1.SolveShowsValidatedRhs | services/edo/js/edo1.js:243-253 | a validated equation reaches the solutions, showing the trimmed text after the first '=' |
| Edo1.LinearHasNoStar | services/edo/js/edo1.js:256-260 | the linear solution is chosen only for a right side without '*' |
| Edo1.ValidatedReachesEvaluator | services/edo/js/edo1.js:282-299 | a validated right side with no second '=', at most 200 units and no "apply"/"call" is handed to the evaluator unchanged |
| Edo1.SecondEqualsRejectedByRk4 | services/edo/js/edo1.js:282-307 | the validator allows '=' on the right side and the sanitizer does not, so such an equation ends in the RK4 error card |
| Edo2.ValidateEdo2AtFirstEquals | services/edo/js/edo2.js:75-94 | the validator accepts exactly when there is an '=' and the trimmed left side contains `y''` and a '+' or a '-' |
| Edo2.RightSideIgnored | services/edo/js/edo2.js:77-79 | text after the first '=' does not change the answer |
| Edo2.LeftmostMatches | services/edo/js/edo2.js:236 | the pattern matches where the leftmost search stops |
| Edo2.LeftmostIsFirst | services/edo/js/edo2.js:236 | the pattern matches nowhere before that point |
| Edo2.MatchRendered | services/edo/js/edo2.js:235-245 | for `y'' + a y' + b y`, with white space of its own before and after each '+' and around each optional '*', the pattern captures exactly a and b |
| Edo2.FirstExampleMatched | services/edo/js/edo2.js:239 | the left side of the page's example `y'' + 2y' + 2y = 0` gives the coefficients 2 and 2 |
| Edo2.SecondExampleMatched | services/edo/js/edo2.js:240 | the left side of the page's example `y'' + 3*y' + 2*y = 0` gives the coefficients 3 and 2 |
| Edo2.TightExampleMatched | services/edo/js/edo2.js:235-236 | the form without spaces `y''+2y'+2y` gives the coefficients 2 and 2 |
| Edo2.CoefficientRendered | services/edo/js/edo2.js:236 | each `\s*\+\s*NUM\s*\*?\s*v` step, with its four runs of white space chosen independently, reads back the coefficient and leaves the rest |
| Edo2.ParseFloatOfInt | services/edo/js/edo2.js:243-244 | `parseFloat` reads back the decimal text of any integer |
| Edo2.ParseFloatNaN | services/edo/js/edo2.js:243-244 | `parseFloat` gives NaN exactly when neither a digit nor ".digit" follows the optional '-' |
| Edo2.RootsOfMeaning | services/edo/js/edo2.js:249-265 | D > 0: the polynomial is negative at -a/2. D = 0: r^2 + ar + b = (r - r0)^2 for the printed r0. D < 0: it equals (r + a/2)^2 + (-D)/4, and alpha = -a/2 |
| Edo2.TwoRealRoots | services/edo/js/edo2.js:250-251 | the printed r1 and r2 are different roots of the characteristic polynomial |
| Edo2.ComplexRoot | services/edo/js/edo2.js:260-261 | alpha + beta i is a root: both its real and imaginary parts vanish |
| Edo2.NaNReportedComplex | services/edo/js/edo2.js:243-265 | a coefficient that is not a number lands in the complex branch |
| Edo2.Edo2Cards | services/edo/js/edo2.js:237-265 | three format-help cards, or five cards starting with the equation and the polynomial |
| Edo2.SolvedImpliesValid | services/edo/js/edo2.js:75-94 | whenever the handler finds coefficients and there is an '=', the validator accepts |
| Edo2.RenderedEquationSolved | services/edo/js/edo2.js:227-245 | an equation whose left side is in the documented form, with any white space around it and before the '=' (so `y'' + 2y' + 2y = 0` too), is accepted and solved with its coefficients as written, whatever the right side |

## Left out

- Floating point. Numbers are exact reals. The pages' IEEE-754 rounding is not
  modelled. The pivot test `Math.abs(x) < 1e-12` is modelled, as the `eps`
  parameter.
- `Math.round` in `gcd` and `simplify` is the identity on the whole numbers
  `toFraction` produces, so it is not modelled.
- `isFinite` guards in `toFraction` and `fmt` are not modelled: every value is a
  finite real.
- Input reading is left out: `Number(...)` on the grid inputs and the `alert` for a
  non-finite entry. The page methods take the matrix that was read.
- Page rendering is left out: DOM construction, the card titles and descriptions,
  LaTeX strings, MathJax typesetting, scrolling and the active-button styling. A step
  is its kind, its numbers and its matrix snapshot.
- A 0 x 0 matrix is not modelled. No size button offers it, so `Valid` requires size
  at least 1 on the determinant page.
- `rk4`, `math.evaluate` and the parsing of x0, y0 and xf are left out. They are
  numeric evaluation of user text by a library outside the project. The RK4 handler
  is modelled up to the point where the sanitized text is handed to the evaluator.
- The canned solution texts of the first-order page are left out. The model keeps
  which of the five forms is chosen, not the text.
- The `try/catch` around the first-order solve cards is left out: nothing inside it
  can throw.
- `updateButtonState` and the live-preview handlers are left out. They only enable
  buttons from the validators, which are modelled.
- The sanitizer's non-string inputs are left out. The model's input is always a
  string.
- `toLowerCase` is modelled on ASCII letters only.
- `validateEDO2`'s `hasPrime` is left out: it is computed but does not affect the
  result.
- `parseFloat` is modelled only on texts of the coefficient class `[\-0-9\.]`. Its
  exponent and `Infinity` forms cannot be captured by the pattern.
- Edo2.RootsOfMeaning states the D = 0 and D < 0 branches as polynomial identities
  (a perfect square, or a square plus the positive -D/4). It does not state
  "no other root" or "no real root" as inequalities.
- Edo2.TwoRealRoots and Edo2.ComplexRoot take the square root q as a parameter with
  q >= 0 and q * q = D (or -D). `Math.sqrt` and `toFixed(4)` are not modelled.
- The card text of `addStep` is left out: the numbers printed with `+a+` and
  `toFixed` are display.
- Edo2.Edo2Cards states the number and the first cards of each outcome, not their
  text.
- `clone` is not modelled: Dafny sequences are values, so a snapshot is the sequence
  itself.
- `console.log` calls are not modelled.

## Findings

| source | as written | input that shows it | evidently intended | confidence | as-written member | corrected member |
|---|---|---|---|---|---|---|
| services/matriz_inversa/js/script.js:160-162 (and calculators/matrixCalculator.js:225-228) | Gauss-Jordan throws 'Pivote 0 sin alternativa' when the pivot and everything below it are under 1e-12, although the precheck, an exact `det === 0` test, has accepted the matrix | `[[1e-13, 0], [0, 1]]`: det = 1e-13 passes the precheck, Gauss-Jordan is offered, and clicking it throws at column 0 | every method offered for a matrix that passed the precheck inverts it; the pivot test and the singularity test agree | medium, not executed | InversePage.GaussJordanThrowsOnInvertible | InversePage.ExactResolution |
| calculators/matrixCalculator.js:420-461 (and services/matriz_inversa/js/script.js:332-373) | the precheck computes a 3 x 3 determinant with the closed formula (no threshold), but a method click recomputes it by elimination with the 1e-12 threshold | diag(1e-13, 1, 1): the precheck gives 1e-13 and shows the methods; every click recomputes 0 and shows the singular-matrix error | the recomputed determinant agrees with the precheck | medium, not executed | InversePage.ClickContradictsPrecheck | InversePage.ExactChecksAgree |
| services/determinantes/js/script.js:168-175 | a 1 x 1 minor goes through `detEliminationWithSteps`, whose 1e-12 threshold turns a small entry into 0 | `[[1e12, 0], [0, 1e-13]]`: the first answer (`det2x2`) is 0.1, and the cofactor alternative gives 0 | the cofactor expansion gives the same determinant as the first answer | medium, not executed | CofactorExpansion.ExpansionDropsSmallMinor | CofactorExpansion.ExactCofactorExpansion |
