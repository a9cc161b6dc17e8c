/** The second-order equation page, `services/edo/js/edo2.js`: the validator that
    enables the solve button, the coefficient pattern
    `y''\s*\+\s*([\-0-9\.]+)\s*\*?\s*y'\s*\+\s*([\-0-9\.]+)\s*\*?\s*y` read with
    `parseFloat`, and the sign test of the discriminant `a*a - 4*b` of the
    characteristic polynomial r^2 + a r + b. */
module Edo2 {
  import opened Text
  import opened Options

  // ---------------------------------------------------------------------------
  // validateEDO2

  /** `validateEDO2(equation)` on a string. `hasPrime` is computed by the page but
      takes no part in the answer, so it is left out. */
  function ValidateEdo2(s: string): bool
  {
    if Trim(s) == [] then false
    else if |Split(s, '=')| < 2 then false
    else
      var left := Trim(BeforeFirst(s, '='));
      var hasDoublePrime := Contains(left, "y''");
      var hasY := Contains(left, "y");
      if !hasDoublePrime || !hasY then false
      else hasDoublePrime && (Contains(left, "+") || Contains(left, "-"))
  }

  /** The validator, stated on the text before the first '=': there is an '=', and the
      trimmed text before it contains `y''` and a '+' or a '-'. Neither `y'` nor
      anything after the '=' is looked at, and the `y` test adds nothing. */
  lemma {:induction false} ValidateEdo2AtFirstEquals(s: string)
    ensures ValidateEdo2(s) <==>
      && '=' in s
      && Contains(Trim(s[..IndexOf(s, '=')]), "y''")
      && (Contains(Trim(s[..IndexOf(s, '=')]), "+") || Contains(Trim(s[..IndexOf(s, '=')]), "-"))
  {
    if '=' in s {
      ValidateEdo2WithEquals(s);
      SplitAtFirst(s, '=');
    }
  }

  /** With an '=' in s the validator comes down to its tests on the left side. */
  lemma {:induction false} ValidateEdo2WithEquals(s: string)
    requires '=' in s
    ensures var left := Trim(BeforeFirst(s, '='));
      ValidateEdo2(s) == (Contains(left, "y''") && (Contains(left, "+") || Contains(left, "-")))
  {
    TrimEmpty(s);
    assert !IsSpace(s[IndexOf(s, '=')]);
    var left := Trim(BeforeFirst(s, '='));
    if Contains(left, "y''") {
      PrefixOccurs(left, "y''", "y");
    }
  }

  /** Whatever follows the first '=' does not change the answer. */
  lemma {:induction false} RightSideIgnored(s: string, t: string)
    requires '=' in s
    ensures ValidateEdo2(s + t) == ValidateEdo2(s)
  {
    BeforeFirstOfAppend(s, t, '=');
    ValidateEdo2WithEquals(s);
    ValidateEdo2WithEquals(s + t);
  }

  // ---------------------------------------------------------------------------
  // The coefficient pattern

  /** The class `[\-0-9\.]` of a coefficient. */
  predicate NumChar(c: char)
  {
    c == '-' || IsDigit(c) || c == '.'
  }

  predicate AllNum(s: string)
  {
    forall i :: 0 <= i < |s| ==> NumChar(s[i])
  }

  /** The length of the longest prefix of t in the coefficient class, which is what
      the greedy `[\-0-9\.]+` takes. */
  function NumSpan(t: string): (n: nat)
    ensures n <= |t| && (n == |t| || !NumChar(t[n]))
  {
    if t != [] && NumChar(t[0]) then 1 + NumSpan(t[1..]) else 0
  }

  /** `\s*\*?\s*`: the spaces, an optional '*', the spaces. */
  function SkipStar(t: string): string
  {
    var u := TrimStart(t);
    if u != [] && u[0] == '*' then TrimStart(u[1..]) else u
  }

  /** `\s*\+\s*` at the start of t: the text after it. */
  function AfterPlus(t: string): Option<string>
  {
    var u := TrimStart(t);
    if u == [] || u[0] != '+' then None else Some(TrimStart(u[1..]))
  }

  /** `([\-0-9\.]+)\s*\*?\s*` followed by v, at the start of w: the captured
      coefficient and the text after v. */
  function NumberThen(w: string, v: string): Option<(string, string)>
  {
    var n := NumSpan(w);
    if n == 0 then None
    else
      var x := SkipStar(w[n..]);
      if |x| >= |v| && x[..|v|] == v then Some((w[..n], x[|v|..])) else None
  }

  /** `\s*\+\s*([\-0-9\.]+)\s*\*?\s*` followed by v, at the start of t: the captured
      coefficient and the text after v. Each part is determined: the coefficient
      class holds no space, '*' or 'y', so a shorter coefficient or a shorter run of
      spaces could never be followed by what the pattern needs next, and the greedy
      reading is the only one. */
  function Coefficient(t: string, v: string): (r: Option<(string, string)>)
    ensures r.Some? ==> r.value.0 != []
  {
    match AfterPlus(t)
    case None => None
    case Some(w) => NumberThen(w, v)
  }

  /** The pattern at the start of t: the two captured coefficients. */
  function MatchAt(t: string): (r: Option<(string, string)>)
    ensures r.Some? ==> r.value.0 != [] && r.value.1 != []
  {
    if |t| >= 3 && t[..3] == "y''" then
      match Coefficient(t[3..], "y'")
      case None => None
      case Some((a, rest)) =>
        match Coefficient(rest, "y")
        case None => None
        case Some((b, _)) => Some((a, b))
    else
      None
  }

  /** The first position from i on where the pattern matches: `match` without the
      global flag returns the leftmost match. */
  function Leftmost(s: string, i: nat): (r: Option<nat>)
    requires i <= |s|
    ensures r.Some? ==> i <= r.value <= |s|
    decreases |s| - i
  {
    if MatchAt(s[i..]).Some? then Some(i)
    else if i == |s| then None
    else Leftmost(s, i + 1)
  }

  /** The pattern matches where `Leftmost` stops. */
  lemma {:induction false} LeftmostMatches(s: string, i: nat)
    requires i <= |s| && Leftmost(s, i).Some?
    ensures MatchAt(s[Leftmost(s, i).value..]).Some?
    decreases |s| - i
  {
    if MatchAt(s[i..]).None? {
      LeftmostMatches(s, i + 1);
    }
  }

  /** The pattern matches nowhere between i and where `Leftmost` stops, nor anywhere
      from i on when it finds nothing. */
  lemma {:induction false} LeftmostIsFirst(s: string, i: nat, j: nat)
    requires i <= j <= |s|
    requires Leftmost(s, i).None? || j < Leftmost(s, i).value
    ensures MatchAt(s[j..]).None?
    decreases |s| - i
  {
    if j > i {
      LeftmostIsFirst(s, i + 1, j);
    }
  }

  /** `left.match(...)`: the coefficients of the leftmost match. */
  function MatchCoefficients(left: string): Option<(string, string)>
  {
    match Leftmost(left, 0)
    case None => None
    case Some(i) => MatchAt(left[i..])
  }

  /** How one term `+ a * v` after the `y''` is typed: the white space before and
      after the '+', the white space before and after the place of the '*', and the
      '*' itself, which may be left out. */
  datatype Layout = Layout(beforePlus: string, afterPlus: string, beforeStar: string, star: string, afterStar: string)

  /** A layout the pattern's `\s*` and `\*?` can take: white space only, and '*' or
      nothing. */
  predicate Typeable(l: Layout)
  {
    && AllSpace(l.beforePlus) && AllSpace(l.afterPlus)
    && AllSpace(l.beforeStar) && AllSpace(l.afterStar)
    && (l.star == "" || l.star == "*")
  }

  /** One term `+ a * v` typed with layout l. */
  function Term(l: Layout, a: string, v: string): string
  {
    l.beforePlus + "+" + l.afterPlus + a + l.beforeStar + l.star + l.afterStar + v
  }

  /** The left side `y'' + a y' + b y`, each term typed with its own layout:
      "y''+2y'+2y", "y'' + 2y' + 2y", "y'' + 3*y' + 2*y" and the like. */
  function Rendered(a: string, b: string, la: Layout, lb: Layout): string
  {
    "y''" + Term(la, a, "y'") + Term(lb, b, "y")
  }

  /** Well-formed rendering parameters: non-empty coefficients of the class and
      layouts of white space and an optional '*'. */
  predicate RenderParts(a: string, b: string, la: Layout, lb: Layout)
  {
    a != [] && AllNum(a) && b != [] && AllNum(b) && Typeable(la) && Typeable(lb)
  }

  /** The pattern reads back the two coefficients of a rendered left side, and the
      match starts at its first character. */
  lemma {:induction false} MatchRendered(a: string, b: string, la: Layout, lb: Layout)
    requires RenderParts(a, b, la, lb)
    ensures MatchCoefficients(Rendered(a, b, la, lb)) == Some((a, b))
  {
    var s := Rendered(a, b, la, lb);
    MatchAtRendered(a, b, la, lb);
    assert s[0..] == s;
  }

  /** The pattern at the start of a rendered left side. */
  lemma {:induction false} MatchAtRendered(a: string, b: string, la: Layout, lb: Layout)
    requires RenderParts(a, b, la, lb)
    ensures MatchAt(Rendered(a, b, la, lb)) == Some((a, b))
  {
    var s := Rendered(a, b, la, lb);
    var rest := Term(lb, b, "y");
    var tail := Term(la, a, "y'") + rest;
    assert s == "y''" + tail;
    assert s[..3] == "y''" && s[3..] == tail;
    CoefficientRendered(la, a, "y'", rest);
    CoefficientRendered(lb, b, "y", []);
    assert rest + [] == rest;
  }

  /** One `\s*\+\s*NUM\s*\*?\s*v` step over its rendering. */
  lemma {:induction false} CoefficientRendered(l: Layout, a: string, v: string, rest: string)
    requires a != [] && AllNum(a) && Typeable(l)
    requires v != [] && v[0] == 'y'
    ensures Coefficient(Term(l, a, v) + rest, v) == Some((a, rest))
  {
    var x := a + (l.beforeStar + l.star + l.afterStar + v + rest);
    assert Term(l, a, v) + rest == l.beforePlus + "+" + l.afterPlus + x;
    assert x[0] == a[0] && NumChar(a[0]);
    AfterPlusRendered(l.beforePlus, l.afterPlus, x);
    NumberRendered(a, l, v, rest);
  }

  /** `\s*\+\s*` over a gap, a '+' and a gap. */
  lemma {:induction false} AfterPlusRendered(g: string, h: string, x: string)
    requires AllSpace(g) && AllSpace(h) && x != [] && !IsSpace(x[0])
    ensures AfterPlus(g + "+" + h + x) == Some(x)
  {
    var p := "+" + (h + x);
    assert g + "+" + h + x == g + p;
    SpacesBefore(g, p);
    assert p[1..] == h + x;
    SpacesBefore(h, x);
  }

  /** Spaces before a character that is not a space are what `\s*` skips. */
  lemma {:induction false} SpacesBefore(g: string, x: string)
    requires AllSpace(g) && x != [] && !IsSpace(x[0])
    ensures TrimStart(g + x) == x
  {
    TrimStartSpaces(g, x);
  }

  /** The coefficient and `\s*\*?\s*v` over their rendering. */
  lemma {:induction false} NumberRendered(a: string, l: Layout, v: string, rest: string)
    requires a != [] && AllNum(a) && Typeable(l)
    requires v != [] && v[0] == 'y'
    ensures NumberThen(a + (l.beforeStar + l.star + l.afterStar + v + rest), v) == Some((a, rest))
  {
    var y := l.beforeStar + l.star + l.afterStar + v + rest;
    var x := a + y;
    assert y == l.beforeStar + l.star + l.afterStar + (v + rest);
    assert y == [] || !NumChar(y[0]) by {
      if l.beforeStar != [] {
        assert y[0] == l.beforeStar[0];
      } else if l.star != [] {
        assert y[0] == '*';
      } else if l.afterStar != [] {
        assert y[0] == l.afterStar[0];
      } else {
        assert y[0] == 'y';
      }
    }
    NumSpanOf(a, y);
    assert x[..|a|] == a && x[|a|..] == y;
    SkipStarRendered(l.beforeStar, l.star, l.afterStar, v + rest);
    assert (v + rest)[..|v|] == v && (v + rest)[|v|..] == rest;
  }

  /** The greedy coefficient stops where the class ends. */
  lemma {:induction false} NumSpanOf(a: string, y: string)
    requires AllNum(a) && (y == [] || !NumChar(y[0]))
    ensures NumSpan(a + y) == |a|
    decreases |a|
  {
    if a != [] {
      assert (a + y)[1..] == a[1..] + y;
      NumSpanOf(a[1..], y);
    } else {
      assert a + y == y;
    }
  }

  /** `\s*\*?\s*` over a gap, an optional '*' and a gap. */
  lemma {:induction false} SkipStarRendered(g: string, star: string, h: string, z: string)
    requires AllSpace(g) && AllSpace(h) && (star == "" || star == "*") && z != [] && z[0] == 'y'
    ensures SkipStar(g + star + h + z) == z
  {
    if star == "*" {
      var p := "*" + (h + z);
      assert g + star + h + z == g + p;
      SpacesBefore(g, p);
      assert p[1..] == h + z;
      SpacesBefore(h, z);
    } else {
      assert g + star + h + z == (g + h) + z;
      assert AllSpace(g + h);
      SpacesBefore(g + h, z);
    }
  }

  // ---------------------------------------------------------------------------
  // parseFloat

  /** The length of the leading run of digits. */
  function DigitSpan(t: string): (n: nat)
    ensures n <= |t| && AllDigits(t[..n]) && (n == |t| || !IsDigit(t[n]))
  {
    if t != [] && IsDigit(t[0]) then
      var n := 1 + DigitSpan(t[1..]);
      assert t[..n] == [t[0]] + t[1..][..n - 1];
      n
    else
      0
  }

  function Pow10(n: nat): (p: nat)
    ensures p >= 1
  {
    if n == 0 then 1 else 10 * Pow10(n - 1)
  }

  /** `parseFloat(t)` on a text of the coefficient class: an optional '-', the
      integer digits, and the digits after a '.', read up to the first character that
      does not continue the number; `None` is NaN, when no digit is read. */
  function ParseFloat(t: string): Option<real>
  {
    var neg := t != [] && t[0] == '-';
    var body := if neg then t[1..] else t;
    var d := DigitSpan(body);
    var intPart := body[..d];
    var frac := if d < |body| && body[d] == '.' then body[d + 1..][..DigitSpan(body[d + 1..])] else [];
    if |intPart| + |frac| == 0 then None
    else
      var v := DigitsValue(intPart) as real + DigitsValue(frac) as real / Pow10(|frac|) as real;
      Some(if neg then - v else v)
  }

  /** `parseFloat` reads back the decimal text of every integer. */
  lemma {:induction false} ParseFloatOfInt(n: int)
    ensures ParseFloat(IntToString(n)) == Some(n as real)
  {
    IntToStringRoundTrip(n);
    var t := IntToString(n);
    var body := if n < 0 then t[1..] else t;
    assert AllDigits(body);
    DigitSpanAll(body);
    assert body[..|body|] == body;
  }

  lemma {:induction false} DigitSpanAll(t: string)
    requires AllDigits(t)
    ensures DigitSpan(t) == |t|
    decreases |t|
  {
    if t != [] {
      DigitSpanAll(t[1..]);
    }
  }

  /** `parseFloat` gives NaN exactly when no digit is read: after the optional '-'
      comes neither a digit nor a '.' followed by a digit ("-", ".", "--1", "-.").
      A lone '.' or '-' is in the coefficient class, so the pattern can capture such
      a text. */
  lemma {:induction false} ParseFloatNaN(t: string)
    ensures var body := if t != [] && t[0] == '-' then t[1..] else t;
      ParseFloat(t).None? <==>
        (body == [] || !IsDigit(body[0])) && !(|body| >= 2 && body[0] == '.' && IsDigit(body[1]))
  {
    var body := if t != [] && t[0] == '-' then t[1..] else t;
    if |body| >= 2 && body[0] == '.' && IsDigit(body[1]) {
      assert DigitSpan(body[1..]) >= 1;
    }
  }

  // ---------------------------------------------------------------------------
  // The discriminant

  /** The branch the page takes, with the root it prints where it is a formula
      without square roots: the double root -a/2, and the real part -a/2 of the
      complex pair (`None` where a is NaN). */
  datatype Roots = TwoReal | Double(r: real) | Complex(alpha: Option<real>)

  /** `D = a*a - 4*b` and its three branches. A NaN coefficient makes D NaN, which
      fails both `D > 0` and `D === 0`, so it lands in the complex branch. */
  function RootsOf(a: Option<real>, b: Option<real>): Roots
  {
    if a.Some? && b.Some? then
      var D := a.value * a.value - 4.0 * b.value;
      if D > 0.0 then TwoReal
      else if D == 0.0 then Double(- a.value / 2.0)
      else Complex(Some(- a.value / 2.0))
    else
      Complex(if a.Some? then Some(- a.value / 2.0) else None)
  }

  /** The characteristic polynomial r^2 + a r + b. */
  function CharPoly(a: real, b: real, r: real): real
  {
    r * r + a * r + b
  }

  /** Completing the square: P(r) = (r + a/2)^2 - D/4. */
  lemma {:induction false} CompletedSquare(a: real, b: real, r: real)
    ensures CharPoly(a, b, r) == (r + a / 2.0) * (r + a / 2.0) - (a * a - 4.0 * b) / 4.0
  {
  }

  /** Each branch says what the roots of r^2 + a r + b are: with D > 0 the value at
      -a/2 is negative, so the polynomial has two real roots; with D = 0 it is the
      square (x - r)^2 of the page's r, its only root; with D < 0 it is a square plus
      the positive -D/4, so it has no real root, and -a/2 is the real part the page
      prints. */
  lemma {:induction false} RootsOfMeaning(a: real, b: real)
    ensures var D := a * a - 4.0 * b;
      match RootsOf(Some(a), Some(b))
      case TwoReal => D > 0.0 && CharPoly(a, b, - a / 2.0) < 0.0
      case Double(r) => D == 0.0 && forall x: real :: CharPoly(a, b, x) == (x - r) * (x - r)
      case Complex(alpha) =>
        && D < 0.0 && alpha == Some(- a / 2.0)
        && forall x: real :: CharPoly(a, b, x) == (x + a / 2.0) * (x + a / 2.0) + (- D) / 4.0
  {
    var D := a * a - 4.0 * b;
    CompletedSquare(a, b, - a / 2.0);
    forall x: real
      ensures CharPoly(a, b, x) == (x + a / 2.0) * (x + a / 2.0) - D / 4.0
    {
      CompletedSquare(a, b, x);
    }
    if D == 0.0 {
      forall x: real
        ensures CharPoly(a, b, x) == (x - (- a / 2.0)) * (x - (- a / 2.0))
      {
        assert x - (- a / 2.0) == x + a / 2.0;
      }
    }
  }

  /** With D > 0 the page's r1 = (-a + q)/2 and r2 = (-a - q)/2, for q the square
      root of D, are two different roots. */
  lemma {:induction false} TwoRealRoots(a: real, b: real, q: real)
    requires q >= 0.0 && q * q == a * a - 4.0 * b
    requires RootsOf(Some(a), Some(b)) == TwoReal
    ensures (- a + q) / 2.0 != (- a - q) / 2.0
    ensures CharPoly(a, b, (- a + q) / 2.0) == 0.0 && CharPoly(a, b, (- a - q) / 2.0) == 0.0
  {
    CompletedSquare(a, b, (- a + q) / 2.0);
    CompletedSquare(a, b, (- a - q) / 2.0);
    assert (- a + q) / 2.0 + a / 2.0 == q / 2.0;
    assert (- a - q) / 2.0 + a / 2.0 == - q / 2.0;
  }

  /** With D < 0 the page's alpha + beta i, for alpha = -a/2 and beta = q/2 with q
      the square root of -D, is a root: the real and imaginary parts of
      (alpha + beta i)^2 + a (alpha + beta i) + b vanish. */
  lemma {:induction false} ComplexRoot(a: real, b: real, q: real)
    requires q >= 0.0 && q * q == - (a * a - 4.0 * b)
    requires RootsOf(Some(a), Some(b)).Complex?
    ensures var alpha, beta := RootsOf(Some(a), Some(b)).alpha.value, q / 2.0;
      && alpha * alpha - beta * beta + a * alpha + b == 0.0
      && 2.0 * alpha * beta + a * beta == 0.0
  {
  }

  /** A coefficient that is not a number sends the page to the complex branch. */
  lemma {:induction false} NaNReportedComplex(a: Option<real>, b: Option<real>)
    requires a.None? || b.None?
    ensures RootsOf(a, b).Complex?
    ensures RootsOf(a, b).alpha.None? <==> a.None?
  {
  }

  // ---------------------------------------------------------------------------
  // The solve handler

  /** The cards the handler adds: three format-help cards, or the equation, the
      characteristic polynomial and the three cards of one discriminant branch. */
  datatype Edo2Card =
    | ExpectedFormat | ValidExample | OtherExample
    | EquationCard | PolynomialCard | DiscriminantCard | RootsCard | HomogeneousCard

  datatype Edo2Outcome = FormatHelp | Solved(a: Option<real>, b: Option<real>, roots: Roots)

  /** The solve handler on `eq.value || ''`; it does not call the validator. */
  function SolveEdo2(s: string): Edo2Outcome
  {
    var left := Trim(BeforeFirst(s, '='));
    match MatchCoefficients(left)
    case None => FormatHelp
    case Some((ta, tb)) =>
      var a, b := ParseFloat(ta), ParseFloat(tb);
      Solved(a, b, RootsOf(a, b))
  }

  function Edo2Cards(o: Edo2Outcome): (cards: seq<Edo2Card>)
    ensures o.FormatHelp? ==> |cards| == 3 && cards[0] == ExpectedFormat
    ensures o.Solved? ==> |cards| == 5 && cards[..2] == [EquationCard, PolynomialCard]
  {
    match o
    case FormatHelp => [ExpectedFormat, ValidExample, OtherExample]
    case Solved(_, _, _) => [EquationCard, PolynomialCard, DiscriminantCard, RootsCard, HomogeneousCard]
  }

  /** Whenever the handler finds coefficients, the left side holds `y''` and a '+',
      so with an '=' present the validator accepts the equation too. */
  lemma {:induction false} SolvedImpliesValid(s: string)
    requires '=' in s && SolveEdo2(s).Solved?
    ensures ValidateEdo2(s)
  {
    var left := Trim(BeforeFirst(s, '='));
    assert MatchCoefficients(left).Some?;
    MatchedHasTokens(left);
    ValidateEdo2WithEquals(s);
  }

  /** A text the pattern matches somewhere contains `y''` and a '+'. */
  lemma {:induction false} MatchedHasTokens(left: string)
    requires MatchCoefficients(left).Some?
    ensures Contains(left, "y''") && Contains(left, "+")
  {
    LeftmostMatches(left, 0);
    var i := Leftmost(left, 0).value;
    MatchAtHasTokens(left[i..]);
    ContainsInSuffix(left, i, "y''");
    ContainsInSuffix(left, i, "+");
  }

  /** Where the pattern matches, `y''` starts the text and a '+' follows the spaces
      after it. */
  lemma {:induction false} MatchAtHasTokens(t: string)
    requires MatchAt(t).Some?
    ensures Contains(t, "y''") && Contains(t, "+")
  {
    assert |t| >= 3 && t[..3] == "y''";
    assert OccursAt(t, "y''", 0);
    assert Coefficient(t[3..], "y'").Some?;
    AfterPlusHasPlus(t[3..]);
    OccursInSuffix(t, 3, "+", LeadingSpaces(t[3..]));
  }

  /** Where `\s*\+` matches, the '+' follows the leading spaces. */
  lemma {:induction false} AfterPlusHasPlus(u: string)
    requires AfterPlus(u).Some?
    ensures OccursAt(u, "+", LeadingSpaces(u))
  {
    var k := LeadingSpaces(u);
    assert u[k..][0] == '+';
    assert u[k..k + 1] == "+";
  }

  /** An occurrence in a suffix of s is an occurrence in s. */
  lemma {:induction false} OccursInSuffix(s: string, i: nat, w: string, j: nat)
    requires i <= |s| && OccursAt(s[i..], w, j)
    ensures OccursAt(s, w, i + j) && Contains(s, w)
  {
    assert s[i..][j..j + |w|] == s[i + j..i + j + |w|];
    assert OccursAt(s, w, i + j);
  }

  /** A word contained in a suffix of s is contained in s. */
  lemma {:induction false} ContainsInSuffix(s: string, i: nat, w: string)
    requires i <= |s| && Contains(s[i..], w)
    ensures Contains(s, w)
  {
    var j: nat :| j <= |s[i..]| && OccursAt(s[i..], w, j);
    OccursInSuffix(s, i, w, j);
  }

  /** An equation typed in the documented form, with any white space around its
      left side, is accepted by the validator and solved with the coefficients as
      written, whatever its right side. */
  lemma {:induction false} RenderedEquationSolved(a: string, b: string, la: Layout, lb: Layout, p: string, q: string, rhs: string)
    requires RenderParts(a, b, la, lb) && AllSpace(p) && AllSpace(q)
    ensures var s := p + Rendered(a, b, la, lb) + q + "=" + rhs;
      && ValidateEdo2(s)
      && SolveEdo2(s) == Solved(ParseFloat(a), ParseFloat(b), RootsOf(ParseFloat(a), ParseFloat(b)))
  {
    var left := Rendered(a, b, la, lb);
    var padded := p + left + q;
    NoEqualsRendered(a, b, la, lb);
    assert '=' !in padded by {
      forall k | 0 <= k < |padded|
        ensures padded[k] != '='
      {
        if k < |p| {
          assert padded[k] == p[k];
        } else if k < |p| + |left| {
          assert padded[k] == left[k - |p|];
        } else {
          assert padded[k] == q[k - |p| - |left|];
        }
      }
    }
    SplitAround(padded, rhs, '=');
    assert padded + ['='] + rhs == p + left + q + "=" + rhs;
    assert left[0] == 'y' && left[|left| - 1] == 'y';
    TrimPadded(p, left, q);
    MatchRendered(a, b, la, lb);
    SolvedImpliesValid(p + left + q + "=" + rhs);
  }

  lemma {:induction false} NoEqualsRendered(a: string, b: string, la: Layout, lb: Layout)
    requires RenderParts(a, b, la, lb)
    ensures '=' !in Rendered(a, b, la, lb)
  {
    NoEqualsTerm(la, a, "y'");
    NoEqualsTerm(lb, b, "y");
  }

  /** A typed term holds no '=': white space, '+', '*', the coefficient class and
      the unknown do not. */
  lemma {:induction false} NoEqualsTerm(l: Layout, a: string, v: string)
    requires Typeable(l) && AllNum(a) && '=' !in v
    ensures '=' !in Term(l, a, v)
  {
  }

  /** The left side of the first example on the page's format help is read as
      written. */
  lemma {:induction false} FirstExampleMatched()
    ensures MatchCoefficients("y'' + 2y' + 2y") == Some(("2", "2"))
  {
    var l := Layout(" ", " ", "", "", "");
    assert Rendered("2", "2", l, l) == "y'' + 2y' + 2y";
    MatchRendered("2", "2", l, l);
  }

  /** The left side of the second example, with the '*' written out, is read as
      written. */
  lemma {:induction false} SecondExampleMatched()
    ensures MatchCoefficients("y'' + 3*y' + 2*y") == Some(("3", "2"))
  {
    var l := Layout(" ", " ", "", "*", "");
    assert Rendered("3", "2", l, l) == "y'' + 3*y' + 2*y";
    MatchRendered("3", "2", l, l);
  }

  /** The spacing-free form the handler's comment names is read too. */
  lemma {:induction false} TightExampleMatched()
    ensures MatchCoefficients("y''+2y'+2y") == Some(("2", "2"))
  {
    var l := Layout("", "", "", "", "");
    assert Rendered("2", "2", l, l) == "y''+2y'+2y";
    MatchRendered("2", "2", l, l);
  }
}
